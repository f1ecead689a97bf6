/** The site header (src/components/Header.tsx): the language switch, its label and
    the entries of the user menu. The session provider and the translation
    library are not modelled; the user, profile, admin flag and the current
    language are inputs. */
module Header {
  /** `toggleLanguage`: English switches to Bengali, and any other language,
      Bengali or not, switches to English. */
  function ToggleLanguage(lang: string): (r: string)
    ensures r == "en" || r == "bn"
    ensures r == "bn" <==> lang == "en"
  {
    if lang == "en" then "bn" else "en"
  }

  /** Toggling twice returns to the start exactly for the two supported languages. */
  lemma ToggleTwiceIff(lang: string)
    ensures ToggleLanguage(ToggleLanguage(lang)) == lang <==> lang == "en" || lang == "bn"
  {
  }

  /** The text on the language button. */
  function LanguageLabel(lang: string): (text: string)
    ensures text == "EN" <==> lang == "en"
    ensures text != "EN" ==> text == "বাং"
  {
    if lang == "en" then "EN" else "বাং"
  }

  /** Every press of the language button changes its label. */
  lemma ToggleChangesLabel(lang: string)
    ensures LanguageLabel(ToggleLanguage(lang)) != LanguageLabel(lang)
  {
  }

  /** The entries of the user menu, separators left out. */
  datatype MenuItem = ProfileCard | AdminLink | Logout | Login

  /** The user menu: for a signed-in user the profile card (when a profile is
      loaded), the admin-panel link (for an admin) and logout; otherwise login. */
  function MenuItems(hasUser: bool, hasProfile: bool, isAdmin: bool): (items: seq<MenuItem>)
    ensures ProfileCard in items <==> hasUser && hasProfile
    ensures AdminLink in items <==> hasUser && isAdmin
    ensures Logout in items <==> hasUser
    ensures Login in items <==> !hasUser
  {
    if hasUser then
      (if hasProfile then [ProfileCard] else []) + (if isAdmin then [AdminLink] else []) + [Logout]
    else [Login]
  }

  /** Exactly one of login and logout is offered, and an admin flag without a user
      shows no admin link. */
  lemma LoginXorLogout(hasUser: bool, hasProfile: bool, isAdmin: bool)
    ensures var items := MenuItems(hasUser, hasProfile, isAdmin);
      (Login in items) != (Logout in items)
    ensures !hasUser ==> MenuItems(hasUser, hasProfile, isAdmin) == [Login]
  {
  }
}
