/**
 The top bar's city selection and first-access flow: what it reads from
 and writes to the browser's local storage when it mounts, and how its
 three handlers change its state and that storage.
 */
module Topbar {
  import opened Wrappers

  /** Local storage as the top bar sees it: string keys to string values. */
  type Storage = map<string, string>

  const CityKey: string := "mundialnet-city"
  const FirstAccessKey: string := "mundialnet-first-access"

  /** The cities the selection dialog offers. */
  const Cities: seq<string> := [
    "Brejo - MA",
    "Anapurus - MA",
    "Magalhães de Almeida - MA",
    "Santa Quitéria do Maranhão - MA",
    "São Bernardo - MA",
    "Mata Roma - MA",
    "Milagres - MA"
  ]

  const DefaultCity: string := "Brejo - MA"

  /** `getItem`: the stored value, or None for a missing key. */
  function GetItem(storage: Storage, key: string): Option<string>
  {
    if key in storage then Some(storage[key]) else None
  }

  /** `setItem`: stores the value under the key and leaves every other key alone. */
  function SetItem(storage: Storage, key: string, value: string): (r: Storage)
    ensures GetItem(r, key) == Some(value)
    ensures forall k :: k != key ==> GetItem(r, k) == GetItem(storage, k)
  {
    storage[key := value]
  }

  /** JavaScript truthiness of a `getItem` result: neither null nor the empty string. */
  predicate Truthy(v: Option<string>)
  {
    v.Some? && v.value != ""
  }

  /** The top bar's component state. */
  datatype State = State(selectedCity: string, isOpen: bool, showFirstAccess: bool, firstAccessChecked: bool)

  /** The top bar with its storage. */
  datatype Session = Session(state: State, storage: Storage)

  /** The state before the mount effect runs. */
  const Initial: State := State(DefaultCity, false, false, false)

  /** The first-access modal is rendered only when it is both requested and checked. */
  predicate FirstAccessVisible(st: State)
  {
    st.showFirstAccess && st.firstAccessChecked
  }

  /**
   The mount effect: raise the first-access modal when its key is falsy;
   adopt a stored city that is one of the cities, otherwise write the
   default city back to storage; then mark the check done.
   */
  function Mount(storage: Storage): (r: Session)
    ensures r.state.firstAccessChecked && !r.state.isOpen
    ensures r.state.showFirstAccess <==> !Truthy(GetItem(storage, FirstAccessKey))
    ensures r.state.selectedCity in Cities
    ensures GetItem(r.storage, CityKey) == Some(r.state.selectedCity)
    ensures Truthy(GetItem(storage, CityKey)) && storage[CityKey] in Cities ==>
              r.state.selectedCity == storage[CityKey] && r.storage == storage
    ensures !(Truthy(GetItem(storage, CityKey)) && storage[CityKey] in Cities) ==>
              r.state.selectedCity == DefaultCity
    ensures forall k :: k != CityKey ==> GetItem(r.storage, k) == GetItem(storage, k)
  {
    var show := if !Truthy(GetItem(storage, FirstAccessKey)) then true else Initial.showFirstAccess;
    var stored := GetItem(storage, CityKey);
    if Truthy(stored) && stored.value in Cities then
      Session(State(stored.value, Initial.isOpen, show, true), storage)
    else
      Session(State(Initial.selectedCity, Initial.isOpen, show, true), SetItem(storage, CityKey, DefaultCity))
  }

  /** `handleCitySelect`: adopt and store the city, close the dialog. */
  function SelectCity(s: Session, city: string): (r: Session)
    ensures r.state.selectedCity == city && !r.state.isOpen
    ensures r.state.showFirstAccess == s.state.showFirstAccess
    ensures r.state.firstAccessChecked == s.state.firstAccessChecked
    ensures GetItem(r.storage, CityKey) == Some(city)
    ensures forall k :: k != CityKey ==> GetItem(r.storage, k) == GetItem(s.storage, k)
  {
    Session(s.state.(selectedCity := city, isOpen := false), SetItem(s.storage, CityKey, city))
  }

  /** `handleFirstAccessClose`: hide the modal and record that the first access is done. */
  function FirstAccessClose(s: Session): (r: Session)
    ensures !r.state.showFirstAccess && !FirstAccessVisible(r.state)
    ensures r.state.selectedCity == s.state.selectedCity && r.state.isOpen == s.state.isOpen
    ensures r.state.firstAccessChecked == s.state.firstAccessChecked
    ensures GetItem(r.storage, FirstAccessKey) == Some("true")
    ensures forall k :: k != FirstAccessKey ==> GetItem(r.storage, k) == GetItem(s.storage, k)
  {
    Session(s.state.(showFirstAccess := false), SetItem(s.storage, FirstAccessKey, "true"))
  }

  /** `handleFirstAccessClient`: as closing, and also open the city dialog. */
  function FirstAccessClient(s: Session): (r: Session)
    ensures r.state == FirstAccessClose(s).state.(isOpen := true)
    ensures r.storage == FirstAccessClose(s).storage
  {
    Session(s.state.(showFirstAccess := false, isOpen := true), SetItem(s.storage, FirstAccessKey, "true"))
  }

  /** The city dialog's own open/close requests (`onOpenChange`). */
  function SetDialogOpen(s: Session, open: bool): (r: Session)
    ensures r.state.isOpen == open
    ensures r.state.(isOpen := s.state.isOpen) == s.state && r.storage == s.storage
  {
    Session(s.state.(isOpen := open), s.storage)
  }

  /** What the user can do once the top bar is mounted. */
  datatype Event =
    | PickCity(city: string)
    | DismissFirstAccess
    | ClientFirstAccess
    | OpenChange(open: bool)

  /** The dialog offers only the listed cities. */
  predicate Offered(e: Event)
  {
    e.PickCity? ==> e.city in Cities
  }

  function Step(s: Session, e: Event): Session
  {
    match e
    case PickCity(c) => SelectCity(s, c)
    case DismissFirstAccess => FirstAccessClose(s)
    case ClientFirstAccess => FirstAccessClient(s)
    case OpenChange(open) => SetDialogOpen(s, open)
  }

  /** The events applied in order. */
  function Run(s: Session, events: seq<Event>): Session
    decreases |events|
  {
    if |events| == 0 then s else Run(Step(s, events[0]), events[1..])
  }

  /** The selected city is a listed city, it is what storage holds, and the mount check is done. */
  predicate Inv(s: Session)
  {
    && s.state.selectedCity in Cities
    && GetItem(s.storage, CityKey) == Some(s.state.selectedCity)
    && s.state.firstAccessChecked
  }

  /** Mounting establishes the invariant, whatever storage holds. */
  lemma MountInv(storage: Storage)
    ensures Inv(Mount(storage))
  {
  }

  /** Every offered event keeps the invariant. */
  lemma StepInv(s: Session, e: Event)
    requires Inv(s) && Offered(e)
    ensures Inv(Step(s, e))
  {
  }

  /** Any sequence of offered events after mounting keeps the invariant. */
  lemma {:induction false} RunInv(s: Session, events: seq<Event>)
    requires Inv(s)
    requires forall i :: 0 <= i < |events| ==> Offered(events[i])
    ensures Inv(Run(s, events))
    decreases |events|
  {
    if |events| > 0 {
      StepInv(s, events[0]);
      RunInv(Step(s, events[0]), events[1..]);
    }
  }

  /** After mounting and any offered events, the selected city is a listed city. */
  lemma {:induction false} SelectedCityAlwaysListed(storage: Storage, events: seq<Event>)
    requires forall i :: 0 <= i < |events| ==> Offered(events[i])
    ensures Run(Mount(storage), events).state.selectedCity in Cities
  {
    var s := Mount(storage);
    MountInv(storage);
    RunInv(s, events);
    assert Inv(Run(s, events));
  }

  /** Mounting again from what mounting wrote selects the same city and writes nothing. */
  lemma MountIdempotent(storage: Storage)
    ensures Mount(Mount(storage).storage).storage == Mount(storage).storage
    ensures Mount(Mount(storage).storage).state == Mount(storage).state
  {
    var s := Mount(storage);
    assert Truthy(GetItem(s.storage, CityKey)) by {
      assert s.state.selectedCity != "";
    }
  }

  /** A reload after any offered events shows the city the user last had. */
  lemma {:induction false} CityPersists(storage: Storage, events: seq<Event>)
    requires forall i :: 0 <= i < |events| ==> Offered(events[i])
    ensures Mount(Run(Mount(storage), events).storage).state.selectedCity == Run(Mount(storage), events).state.selectedCity
  {
    SelectedCityAlwaysListed(storage, events);
    MountInv(storage);
    RunInv(Mount(storage), events);
    assert Run(Mount(storage), events).state.selectedCity != "";
  }

  /** Once the first-access key is truthy, no event makes it falsy again. */
  lemma {:induction false} FirstAccessDoneSticks(s: Session, events: seq<Event>)
    requires Truthy(GetItem(s.storage, FirstAccessKey))
    ensures Truthy(GetItem(Run(s, events).storage, FirstAccessKey))
    decreases |events|
  {
    if |events| > 0 {
      FirstAccessDoneSticks(Step(s, events[0]), events[1..]);
    }
  }

  /** Some event of the list answers the first-access modal. */
  predicate AnsweredFirstAccess(events: seq<Event>)
  {
    exists i :: 0 <= i < |events| && (events[i].DismissFirstAccess? || events[i].ClientFirstAccess?)
  }

  /** After the first-access modal has been answered, mounting again from storage never shows it. */
  lemma {:induction false} NoFirstAccessAfterAnswer(s: Session, events: seq<Event>)
    requires AnsweredFirstAccess(events)
    ensures !Mount(Run(s, events).storage).state.showFirstAccess
  {
    var i :| 0 <= i < |events| && (events[i].DismissFirstAccess? || events[i].ClientFirstAccess?);
    RunSplit(s, events[..i + 1], events[i + 1..]);
    assert events == events[..i + 1] + events[i + 1..];
    RunSplit(s, events[..i], [events[i]]);
    assert events[..i + 1] == events[..i] + [events[i]];
    var mid := Run(s, events[..i + 1]);
    assert Truthy(GetItem(mid.storage, FirstAccessKey));
    FirstAccessDoneSticks(mid, events[i + 1..]);
  }

  /** Running two lists in a row is running their concatenation. */
  lemma {:induction false} RunSplit(s: Session, a: seq<Event>, b: seq<Event>)
    ensures Run(s, a + b) == Run(Run(s, a), b)
    decreases |a|
  {
    if |a| == 0 {
      assert a + b == b;
    } else {
      assert (a + b)[1..] == a[1..] + b;
      RunSplit(Step(s, a[0]), a[1..], b);
    }
  }

  /** The modal shows at first mount exactly when storage has no truthy first-access mark. */
  lemma FirstAccessShownIff(storage: Storage)
    ensures FirstAccessVisible(Mount(storage).state) <==> !Truthy(GetItem(storage, FirstAccessKey))
  {
  }
}
