/** The admin login dialog (src/components/AuthModal.tsx): the login schema and the
    submit flow. `signIn` belongs to the session provider, which is not modelled:
    whether it resolves or throws is an input. */
module AuthModal {
  import Text

  /** The only address the schema admits, also the field's fixed default. */
  const AdminEmail: string := "admin@gmail.com"

  /** `loginSchema`: the literal admin address and a password of at least six
      UTF-16 code units. */
  predicate LoginSchema(email: string, password: string) {
    email == AdminEmail && Text.Utf16Length(password) >= 6
  }

  /** zod counts UTF-16 units, so a password of six characters always passes and
      one of fewer than three never does; inside the Basic Multilingual Plane the
      bound is exactly six characters. */
  lemma PasswordLengthBounds(password: string)
    ensures |password| >= 6 ==> LoginSchema(AdminEmail, password)
    ensures |password| < 3 ==> !LoginSchema(AdminEmail, password)
    ensures (forall k :: 0 <= k < |password| ==> password[k] as int <= 0xFFFF) ==>
      (LoginSchema(AdminEmail, password) <==> |password| >= 6)
  {
  }

  /** The dialog's open flag (owned by the header), the loading flag and the two fields. */
  datatype AuthState = AuthState(isOpen: bool, isLoading: bool, email: string, password: string)

  /** The state when the header opens the dialog for the first time. */
  const Opened: AuthState := AuthState(true, false, AdminEmail, "")

  /** How `signIn` ends. */
  datatype SignIn = Resolves | Throws

  /** `loginForm.handleSubmit(onLoginSubmit)`. A form the schema rejects is not
      submitted. Otherwise `signIn` runs; when it resolves the dialog closes and the
      form is reset, and when it throws nothing catches it, so the dialog stays as
      it was. Loading ends either way. */
  function Submit(st: AuthState, outcome: SignIn): (r: AuthState)
    ensures !LoginSchema(st.email, st.password) ==> r == st
    ensures LoginSchema(st.email, st.password) ==> !r.isLoading
    ensures LoginSchema(st.email, st.password) && outcome == Resolves ==>
      !r.isOpen && r.email == AdminEmail && r.password == ""
    ensures outcome == Throws ==> r.isOpen == st.isOpen && r.password == st.password
  {
    if !LoginSchema(st.email, st.password) then st
    else match outcome
      case Resolves => AuthState(false, false, AdminEmail, "")
      case Throws => st.(isLoading := false)
  }

  /** Typing in the password field. The email field is disabled. */
  function TypePassword(st: AuthState, password: string): (r: AuthState)
    ensures r.password == password && r.email == st.email && r.isOpen == st.isOpen
  {
    st.(password := password)
  }

  datatype Action = Type(password: string) | Press(outcome: SignIn)

  function Run(st: AuthState, acts: seq<Action>): AuthState
    decreases |acts|
  {
    if |acts| == 0 then st
    else
      var next := match acts[0]
        case Type(p) => TypePassword(st, p)
        case Press(o) => Submit(st, o);
      Run(next, acts[1..])
  }

  /** Whatever is typed and submitted, the email stays the fixed address and the
      dialog is not loading between actions, so the schema only ever judges the
      password. */
  lemma {:induction false} EmailStaysFixed(st: AuthState, acts: seq<Action>)
    requires st.email == AdminEmail && !st.isLoading
    ensures Run(st, acts).email == AdminEmail
    ensures !Run(st, acts).isLoading
    ensures LoginSchema(Run(st, acts).email, Run(st, acts).password) <==> Text.Utf16Length(Run(st, acts).password) >= 6
    decreases |acts|
  {
    if |acts| > 0 {
      var next := match acts[0]
        case Type(p) => TypePassword(st, p)
        case Press(o) => Submit(st, o);
      EmailStaysFixed(next, acts[1..]);
    }
  }
}
