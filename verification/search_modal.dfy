/** The search dialog: four guest counters and the parameters a search hands to
    the page (src/components/SearchModal.tsx). Check-in and check-out dates are
    not modelled. */
module SearchModal {
  import Text

  datatype GuestCounts = GuestCounts(adults: int, children: int, infants: int, pets: int)

  datatype GuestKind = Adults | Children | Infants | Pets

  /** The counters when the dialog is created. */
  const InitialGuests: GuestCounts := GuestCounts(1, 0, 0, 0)

  function Count(g: GuestCounts, k: GuestKind): int {
    match k
    case Adults => g.adults
    case Children => g.children
    case Infants => g.infants
    case Pets => g.pets
  }

  function WithCount(g: GuestCounts, k: GuestKind, n: int): (r: GuestCounts)
    ensures Count(r, k) == n
    ensures forall other :: other != k ==> Count(r, other) == Count(g, other)
  {
    match k
    case Adults => g.(adults := n)
    case Children => g.(children := n)
    case Infants => g.(infants := n)
    case Pets => g.(pets := n)
  }

  /** The state every reachable counter set satisfies: at least one adult, nothing negative. */
  predicate ValidGuests(g: GuestCounts) {
    g.adults >= 1 && g.children >= 0 && g.infants >= 0 && g.pets >= 0
  }

  /** `handleGuestChange`: a plus button adds one, a minus button subtracts one but
      never below zero, and a change that would leave no adult is dropped. */
  function HandleGuestChange(g: GuestCounts, k: GuestKind, increment: bool): (r: GuestCounts)
    ensures forall other :: other != k ==> Count(r, other) == Count(g, other)
    ensures increment && (k != Adults || g.adults >= 0) ==> Count(r, k) == Count(g, k) + 1
    ensures !increment ==> Count(r, k) >= 0 || r == g
    ensures !increment && Count(g, k) >= (if k == Adults then 2 else 1) ==> Count(r, k) == Count(g, k) - 1
    ensures k == Adults && g.adults >= 1 ==> r.adults >= 1
  {
    var n := if increment then Count(g, k) + 1 else Max0(Count(g, k) - 1);
    if k == Adults && n < 1 then g else WithCount(g, k, n)
  }

  function Max0(x: int): int {
    if x < 0 then 0 else x
  }

  /** The minus button of counter `k` is disabled: adults at one or below, the others at zero or below. */
  predicate DecrementDisabled(g: GuestCounts, k: GuestKind) {
    if k == Adults then g.adults <= 1 else Count(g, k) <= 0
  }

  /** Every counter change keeps the counters valid. */
  lemma GuestChangeKeepsValid(g: GuestCounts, k: GuestKind, increment: bool)
    requires ValidGuests(g)
    ensures ValidGuests(HandleGuestChange(g, k, increment))
  {
  }

  /** Any sequence of button presses from the initial counters. */
  function ApplyChanges(g: GuestCounts, presses: seq<(GuestKind, bool)>): GuestCounts
    decreases |presses|
  {
    if |presses| == 0 then g
    else ApplyChanges(HandleGuestChange(g, presses[0].0, presses[0].1), presses[1..])
  }

  /** At least one adult and no negative counter, whatever the user presses. */
  lemma {:induction false} ReachableGuestsAreValid(presses: seq<(GuestKind, bool)>)
    ensures ValidGuests(ApplyChanges(InitialGuests, presses))
  {
    ValidAfterPresses(InitialGuests, presses);
  }

  lemma {:induction false} ValidAfterPresses(g: GuestCounts, presses: seq<(GuestKind, bool)>)
    requires ValidGuests(g)
    ensures ValidGuests(ApplyChanges(g, presses))
    decreases |presses|
  {
    if |presses| > 0 {
      GuestChangeKeepsValid(g, presses[0].0, presses[0].1);
      ValidAfterPresses(HandleGuestChange(g, presses[0].0, presses[0].1), presses[1..]);
    }
  }

  /** On valid counters a minus press changes the state iff its button is enabled,
      and then it takes exactly one off that counter. */
  lemma DecrementMatchesButton(g: GuestCounts, k: GuestKind)
    requires ValidGuests(g)
    ensures DecrementDisabled(g, k) ==> HandleGuestChange(g, k, false) == g
    ensures !DecrementDisabled(g, k) ==>
      HandleGuestChange(g, k, false) == WithCount(g, k, Count(g, k) - 1)
  {
    if DecrementDisabled(g, k) && k != Adults {
      assert Count(g, k) == 0;
      var r := WithCount(g, k, 0);
      assert r == g by {
        match k
        case Children => assert r == g.(children := 0);
        case Infants => assert r == g.(infants := 0);
        case Pets => assert r == g.(pets := 0);
      }
    }
  }

  /** `getTotalGuests`: adults and children; infants and pets do not count. */
  function TotalGuests(g: GuestCounts): (n: int)
    ensures ValidGuests(g) ==> n >= 1
  {
    g.adults + g.children
  }

  /** Infants and pets do not change the total. */
  lemma TotalIgnoresInfantsAndPets(g: GuestCounts, infants: int, pets: int)
    ensures TotalGuests(g.(infants := infants, pets := pets)) == TotalGuests(g)
  {
  }

  /** What a search hands to the page. */
  datatype SearchParams = SearchParams(
    location: string,
    guests: int,
    adults: int,
    children: int,
    infants: int,
    pets: int
  )

  /** `handleSearch`: the trimmed location, the guest total and the four counts. */
  function HandleSearch(location: string, g: GuestCounts): (p: SearchParams)
    ensures p.adults == g.adults && p.children == g.children
    ensures p.infants == g.infants && p.pets == g.pets
    ensures p.guests == p.adults + p.children
    ensures p.location == Text.Trim(location)
  {
    SearchParams(Text.Trim(location), TotalGuests(g), g.adults, g.children, g.infants, g.pets)
  }

  /** A search from reachable counters always asks for at least one guest, and its
      location is empty exactly when the typed text was only whitespace. */
  lemma SearchFromValidCounters(location: string, g: GuestCounts)
    requires ValidGuests(g)
    ensures HandleSearch(location, g).guests >= 1
    ensures HandleSearch(location, g).location == [] <==>
      forall k :: 0 <= k < |location| ==> Text.IsTrimmable(location[k])
  {
  }
}
