/**
 The processor's error map: from an error kind to the messages recorded under
 it, oldest first. It is only ever appended to, or emptied as a whole.
 */
module ErrorLedger {

  type Ledger = map<string, seq<string>>

  /** The ledger a freshly constructed processor holds. */
  const Empty: Ledger := map[]

  /** Every kind present holds at least one message: the shape appends and clears keep. */
  ghost predicate WellFormed(l: Ledger) {
    forall kind :: kind in l ==> |l[kind]| > 0
  }

  /** `get_errors_by_type`: the messages of one kind, or none when the kind is absent. */
  function ErrorsByType(l: Ledger, kind: string): (r: seq<string>)
    ensures kind !in l ==> r == []
    ensures kind in l ==> r == l[kind]
  {
    if kind in l then l[kind] else []
  }

  /** `add_error`: appends `message` to the end of its kind's list and leaves every other kind alone. */
  function AddError(l: Ledger, kind: string, message: string): (r: Ledger)
    ensures r.Keys == l.Keys + {kind}
    ensures ErrorsByType(r, kind) == ErrorsByType(l, kind) + [message]
    ensures forall other :: other != kind ==> ErrorsByType(r, other) == ErrorsByType(l, other)
    ensures WellFormed(l) ==> WellFormed(r)
  {
    l[kind := ErrorsByType(l, kind) + [message]]
  }

  /** An append always shows: the ledger after it differs from the one before. */
  lemma AddErrorChanges(l: Ledger, kind: string, message: string)
    ensures AddError(l, kind, message) != l
  {
    assert |ErrorsByType(AddError(l, kind, message), kind)| == |ErrorsByType(l, kind)| + 1;
  }

  /** `get_errors`: the whole map, each kind answering exactly as `get_errors_by_type` does. */
  function Errors(l: Ledger): (r: Ledger)
    ensures r.Keys == l.Keys
    ensures forall kind :: kind in r ==> r[kind] == ErrorsByType(l, kind)
  {
    l
  }

  /** `clear_errors`: every kind reads as empty afterwards. */
  function ClearErrors(): (r: Ledger)
    ensures WellFormed(r)
    ensures forall kind :: ErrorsByType(r, kind) == []
  {
    Empty
  }

  /** `has_errors`: the map is non-empty. */
  function HasErrors(l: Ledger): bool {
    |l| > 0
  }

  /** On a well-formed ledger, `has_errors` holds exactly when some kind holds a message. */
  lemma HasErrorsMeansMessages(l: Ledger)
    ensures WellFormed(l) ==> (HasErrors(l) <==> exists kind :: |ErrorsByType(l, kind)| > 0)
  {
    if |l| > 0 {
      var kind :| kind in l;
      assert ErrorsByType(l, kind) == l[kind];
    } else {
      assert l == map[];
    }
  }

  /** One call a caller makes on the ledger. */
  datatype Event = Add(kind: string, message: string) | Clear

  /** The ledger after a construction followed by `events`, applied in order. */
  function Replay(events: seq<Event>): Ledger
  {
    if |events| == 0 then Empty
    else
      var before := Replay(events[..|events| - 1]);
      match events[|events| - 1]
      case Add(kind, message) => AddError(before, kind, message)
      case Clear => ClearErrors()
  }

  /** The events after the last `Clear`, or all of them when there is none. */
  function SinceLastClear(events: seq<Event>): (r: seq<Event>)
    ensures forall i :: 0 <= i < |r| ==> r[i].Add?
  {
    if |events| == 0 then []
    else if events[|events| - 1].Clear? then []
    else SinceLastClear(events[..|events| - 1]) + [events[|events| - 1]]
  }

  /** The messages added under `kind` in `events`, in order. */
  function MessagesOf(events: seq<Event>, kind: string): seq<string>
  {
    if |events| == 0 then []
    else
      var last := events[|events| - 1];
      MessagesOf(events[..|events| - 1], kind) + (if last.Add? && last.kind == kind then [last.message] else [])
  }

  /** Appends and clears keep the ledger well formed. */
  lemma {:induction false} ReplayWellFormed(events: seq<Event>)
    ensures WellFormed(Replay(events))
  {
    if |events| > 0 {
      ReplayWellFormed(events[..|events| - 1]);
    }
  }

  /** Each kind lists exactly the messages added under it since construction or the last clear, in the order added. */
  lemma {:induction false} ReplayByType(events: seq<Event>, kind: string)
    ensures ErrorsByType(Replay(events), kind) == MessagesOf(SinceLastClear(events), kind)
  {
    if |events| > 0 {
      var prefix := events[..|events| - 1];
      var last := events[|events| - 1];
      if last.Add? {
        ReplayByType(prefix, kind);
        var s := SinceLastClear(prefix) + [last];
        assert s[..|s| - 1] == SinceLastClear(prefix);
      }
    }
  }

  /** `has_errors` holds exactly when some error was added since construction or the last clear. */
  lemma {:induction false} ReplayHasErrors(events: seq<Event>)
    ensures HasErrors(Replay(events)) <==> |SinceLastClear(events)| > 0
  {
    ReplayWellFormed(events);
    if |events| > 0 {
      var prefix := events[..|events| - 1];
      var last := events[|events| - 1];
      if last.Add? {
        var l := Replay(events);
        assert |ErrorsByType(l, last.kind)| > 0;
      } else {
        assert Replay(events) == map[];
      }
    }
  }
}
