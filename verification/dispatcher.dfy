/**
  The dispatcher: a fixed source plus a table from event category to the
  ordered callbacks registered under it.

  Callbacks are opaque identities (the program compares their code
  pointers); what a callback does is given to `Dispatch` as an outcome
  function from the callback and the event it receives to its error, if any.
  Every operation is a pure function from the old dispatcher to the new one.
 */
module Dispatching {
  import opened Events

  /** A callback's identity; two callbacks are the same iff their ids are equal. */
  type CallbackId = nat

  datatype Dispatcher<S> = Dispatcher(source: S, callbacks: map<EventType, seq<CallbackId>>)

  /** The callbacks under `t`; a category without an entry reads as empty (a nil slice). */
  function Callbacks<S>(d: Dispatcher<S>, t: EventType): (r: seq<CallbackId>)
    ensures t in d.callbacks ==> r == d.callbacks[t]
    ensures t !in d.callbacks ==> r == []
  {
    if t in d.callbacks then d.callbacks[t] else []
  }

  /** Category `u` reads the same, with or without an entry, in `d` and `e`. */
  ghost predicate SameEntry<S>(d: Dispatcher<S>, e: Dispatcher<S>, u: EventType) {
    (u in d.callbacks <==> u in e.callbacks) && Callbacks(d, u) == Callbacks(e, u)
  }

  // ---------------------------------------------------------------- Init

  function Init<S>(source: S): (d: Dispatcher<S>)
    ensures d.source == source
    ensures forall t :: t !in d.callbacks
    ensures forall t :: Callbacks(d, t) == []
  {
    Dispatcher(source, map[])
  }

  // ---------------------------------------------------------------- Register

  /** Appends `cb` to the callbacks of `t`, creating the entry if needed; no deduplication. */
  function Register<S>(d: Dispatcher<S>, t: EventType, cb: CallbackId): (r: Dispatcher<S>)
    ensures r.source == d.source
    ensures t in r.callbacks
    ensures Callbacks(r, t) == Callbacks(d, t) + [cb]
    ensures forall u :: u != t ==> SameEntry(d, r, u)
  {
    d.(callbacks := d.callbacks[t := Callbacks(d, t) + [cb]])
  }

  // ---------------------------------------------------------------- Remove, as written

  /** One deletion `append(c[:idx], c[idx+1:]...)`: `c[:idx]` has room for the rest, so
      the cells after `idx` move down one place inside the same backing array, and
      the last cell keeps its old value. */
  function ShiftDown(a: seq<CallbackId>, idx: nat): (b: seq<CallbackId>)
    requires idx < |a|
    ensures |b| == |a|
    ensures forall x :: x in b ==> x in a
    ensures b[..|a| - 1] == a[..idx] + a[idx + 1..]
    ensures b[|a| - 1] == a[|a| - 1]
  {
    a[..idx] + a[idx + 1..] + [a[|a| - 1]]
  }

  /** The state of the removal loop: the shared backing array and whether a match was stored. */
  datatype ScanState = ScanState(backing: seq<CallbackId>, matched: bool)

  /** The removal loop from position `idx` on. It never stops early, and it reads each
      position from the backing array as the earlier deletions have left it. */
  function Scan(a: seq<CallbackId>, cb: CallbackId, idx: nat, matched: bool): (r: ScanState)
    requires idx <= |a|
    ensures |r.backing| == |a|
    ensures r.backing[..idx] == a[..idx]
    ensures forall x :: x in r.backing ==> x in a
    ensures r.matched <==> matched || cb in a[idx..]
    decreases |a| - idx
  {
    if idx == |a| then ScanState(a, matched)
    else if a[idx] == cb then
      var b := ShiftDown(a, idx);
      assert b[..idx] == b[..|a| - 1][..idx] == a[..idx];
      var r := Scan(b, cb, idx + 1, true);
      assert r.backing[..idx] == r.backing[..idx + 1][..idx];
      assert a[idx..][0] == cb;
      r
    else
      assert a[idx..] == [a[idx]] + a[idx + 1..];
      var r := Scan(a, cb, idx + 1, matched);
      assert r.backing[..idx] == r.backing[..idx + 1][..idx];
      r
  }

  /** The sequence the program stores under the category after removing `cb` from `a`:
      unchanged when nothing matched, otherwise the first `|a| - 1` cells of the
      backing array the loop leaves behind. */
  function RemoveAsWritten(a: seq<CallbackId>, cb: CallbackId): (r: seq<CallbackId>)
    ensures cb !in a ==> r == a
    ensures cb in a ==> |r| == |a| - 1
    ensures forall x :: x in r ==> x in a
  {
    var s := Scan(a, cb, 0, false);
    if s.matched then s.backing[..|a| - 1] else a
  }

  /** `Dispatcher.Remove`: the table entry is written only when some callback matched. */
  function Remove<S>(d: Dispatcher<S>, t: EventType, cb: CallbackId): (r: Dispatcher<S>)
    ensures r.source == d.source
    ensures forall u :: u != t ==> SameEntry(d, r, u)
    ensures cb !in Callbacks(d, t) ==> r == d
    ensures cb in Callbacks(d, t) ==> t in r.callbacks && |Callbacks(r, t)| == |Callbacks(d, t)| - 1
  {
    var a := Callbacks(d, t);
    if cb in a then d.(callbacks := d.callbacks[t := RemoveAsWritten(a, cb)]) else d
  }

  /** The removal loop as the program writes it, over a local copy of the backing array. */
  method RemoveLoop(a: seq<CallbackId>, cb: CallbackId) returns (stored: seq<CallbackId>, wrote: bool)
    ensures wrote <==> cb in a
    ensures stored == RemoveAsWritten(a, cb)
  {
    var backing := a;
    stored := a;
    wrote := false;
    var idx := 0;
    while idx < |a|
      invariant idx <= |a| == |backing|
      invariant Scan(backing, cb, idx, wrote) == Scan(a, cb, 0, false)
      invariant wrote ==> stored == backing[..|a| - 1]
      invariant !wrote ==> stored == a
    {
      if backing[idx] == cb {
        assert Scan(backing, cb, idx, wrote) == Scan(ShiftDown(backing, idx), cb, idx + 1, true);
        backing := ShiftDown(backing, idx);
        stored := backing[..|a| - 1];
        wrote := true;
      } else {
        assert Scan(backing, cb, idx, wrote) == Scan(backing, cb, idx + 1, wrote);
      }
      idx := idx + 1;
    }
    assert Scan(a, cb, 0, false) == ScanState(backing, wrote);
    assert a[0..] == a;
  }

  /** From a position with no match at or after it, the loop changes nothing. */
  lemma {:induction false} ScanNoMatch(a: seq<CallbackId>, cb: CallbackId, idx: nat, matched: bool)
    requires idx <= |a|
    requires forall j :: idx <= j < |a| ==> a[j] != cb
    ensures Scan(a, cb, idx, matched) == ScanState(a, matched)
    decreases |a| - idx
  {
    if idx < |a| {
      ScanNoMatch(a, cb, idx + 1, matched);
    }
  }

  /** The loop passes over non-matching positions and performs its first deletion at the
      first match `i`. */
  lemma {:induction false} ScanToFirstMatch(a: seq<CallbackId>, cb: CallbackId, idx: nat, i: nat, matched: bool)
    requires idx <= i < |a| && a[i] == cb
    requires forall j :: idx <= j < i ==> a[j] != cb
    ensures Scan(a, cb, idx, matched) == Scan(ShiftDown(a, i), cb, i + 1, true)
    decreases i - idx
  {
    if idx < i {
      ScanToFirstMatch(a, cb, idx + 1, i, matched);
    }
  }

  /** Whatever the number of occurrences, the callbacks before the first match keep
      their places and the sequence loses exactly one cell. */
  lemma RemoveAsWrittenPrefix(a: seq<CallbackId>, cb: CallbackId, i: nat)
    requires i < |a| && a[i] == cb
    requires forall j :: 0 <= j < i ==> a[j] != cb
    ensures |RemoveAsWritten(a, cb)| == |a| - 1
    ensures RemoveAsWritten(a, cb)[..i] == a[..i]
  {
    ScanToFirstMatch(a, cb, 0, i, false);
    var b := ShiftDown(a, i);
    assert b[..i] == a[..i];
    var s := Scan(b, cb, i + 1, true);
    assert s.backing[..i] == s.backing[..i + 1][..i];
  }

  /** A callback that occurs exactly once is deleted and nothing else moves. */
  lemma RemoveAsWrittenOnce(a: seq<CallbackId>, cb: CallbackId, i: nat)
    requires i < |a| && a[i] == cb
    requires forall j :: 0 <= j < |a| && j != i ==> a[j] != cb
    ensures RemoveAsWritten(a, cb) == a[..i] + a[i + 1..]
  {
    ScanToFirstMatch(a, cb, 0, i, false);
    var b := ShiftDown(a, i);
    forall j | i + 1 <= j < |b|
      ensures b[j] != cb
    {
      if j < |a| - 1 {
        assert b[j] == b[..|a| - 1][j] == a[j + 1];
      }
    }
    ScanNoMatch(b, cb, i + 1, true);
  }

  /** `Remove` of a callback registered exactly once under `t` deletes that one
      registration, keeps the others in order, and touches nothing else. */
  lemma RemoveExactlyOnce<S>(d: Dispatcher<S>, t: EventType, cb: CallbackId, i: nat)
    requires i < |Callbacks(d, t)| && Callbacks(d, t)[i] == cb
    requires forall j :: 0 <= j < |Callbacks(d, t)| && j != i ==> Callbacks(d, t)[j] != cb
    ensures Callbacks(Remove(d, t, cb), t) == Callbacks(d, t)[..i] + Callbacks(d, t)[i + 1..]
    ensures |Callbacks(Remove(d, t, cb), t)| == |Callbacks(d, t)| - 1
    ensures Remove(d, t, cb).source == d.source
    ensures forall u :: u != t ==> SameEntry(d, Remove(d, t, cb), u)
  {
    RemoveAsWrittenOnce(Callbacks(d, t), cb, i);
  }

  // ---------------------------------------------------------------- Remove, first occurrence

  /** The earliest position of `cb` in `a`. */
  function FirstIndex(a: seq<CallbackId>, cb: CallbackId): (i: nat)
    requires cb in a
    ensures i < |a| && a[i] == cb
    ensures cb !in a[..i]
  {
    if a[0] == cb then 0 else 1 + FirstIndex(a[1..], cb)
  }

  /** Deletes the earliest occurrence of `cb` only. */
  function RemoveFirst(a: seq<CallbackId>, cb: CallbackId): (r: seq<CallbackId>)
    ensures cb !in a ==> r == a
    ensures multiset(r) == multiset(a) - multiset{cb}
  {
    if a == [] then []
    else if a[0] == cb then
      assert a == [cb] + a[1..];
      a[1..]
    else
      assert a == [a[0]] + a[1..];
      [a[0]] + RemoveFirst(a[1..], cb)
  }

  /** First-occurrence removal deletes exactly the cell at the first match `i`. */
  lemma {:induction false} RemoveFirstAt(a: seq<CallbackId>, cb: CallbackId, i: nat)
    requires i < |a| && a[i] == cb
    requires forall j :: 0 <= j < i ==> a[j] != cb
    ensures RemoveFirst(a, cb) == a[..i] + a[i + 1..]
  {
    if i > 0 {
      RemoveFirstStep(a, cb);
      RemoveFirstAt(a[1..], cb, i - 1);
      SliceAfterHead(a, i);
    }
  }

  /** Removal passes over a head that does not match. */
  lemma RemoveFirstStep(a: seq<CallbackId>, cb: CallbackId)
    requires a != [] && a[0] != cb
    ensures RemoveFirst(a, cb) == [a[0]] + RemoveFirst(a[1..], cb)
  {
  }

  /** Cutting out cell `i` of `a` is the head followed by cutting out cell `i - 1` of the tail. */
  lemma SliceAfterHead(a: seq<CallbackId>, i: nat)
    requires 0 < i < |a|
    ensures a[..i] + a[i + 1..] == [a[0]] + (a[1..][..i - 1] + a[1..][i..])
  {
    assert a[..i] == [a[0]] + a[1..][..i - 1];
    assert a[i + 1..] == a[1..][i..];
  }

  /** Removal of the earliest registration of `cb` under `t`, leaving later
      duplicates registered; no entry is created when `cb` is absent. */
  function RemoveFirstOccurrence<S>(d: Dispatcher<S>, t: EventType, cb: CallbackId): (r: Dispatcher<S>)
    ensures r.source == d.source
    ensures forall u :: u != t ==> SameEntry(d, r, u)
    ensures cb !in Callbacks(d, t) ==> r == d
    ensures multiset(Callbacks(r, t)) == multiset(Callbacks(d, t)) - multiset{cb}
  {
    var a := Callbacks(d, t);
    if cb in a then d.(callbacks := d.callbacks[t := RemoveFirst(a, cb)]) else d
  }

  /** Two equal cells make their value occur at least twice. */
  lemma RepeatedCount(a: seq<CallbackId>, i: nat, j: nat)
    requires i < j < |a|
    ensures a[i] == a[j] ==> multiset(a)[a[i]] >= 2
  {
    if a[i] == a[j] {
      assert a == a[..i] + [a[i]] + a[i + 1..j] + [a[j]] + a[j + 1..];
    }
  }

  /** The program's `Remove` and first-occurrence removal agree whenever `cb`
      is registered at most once under `t`. */
  lemma RemoveAgreesWhenUnique<S>(d: Dispatcher<S>, t: EventType, cb: CallbackId)
    requires multiset(Callbacks(d, t))[cb] <= 1
    ensures Remove(d, t, cb) == RemoveFirstOccurrence(d, t, cb)
  {
    var a := Callbacks(d, t);
    if cb in a {
      var i := FirstIndex(a, cb);
      forall j | 0 <= j < |a| && j != i
        ensures a[j] != cb
      {
        if j < i {
          assert a[..i][j] == a[j];
        } else {
          RepeatedCount(a, i, j);
        }
      }
      RemoveAsWrittenOnce(a, cb, i);
      RemoveFirstAt(a, cb, i);
    }
  }

  /** With a repeated registration the program's `Remove` is not first-occurrence
      removal: from `[1, 2, 1, 3]` it stores `[2, 3, 3]`, dropping both copies
      of `1` and duplicating `3`, which was registered once. */
  lemma RemoveAsWrittenDuplicates()
    ensures RemoveAsWritten([1, 2, 1, 3], 1) == [2, 3, 3]
    ensures RemoveFirst([1, 2, 1, 3], 1) == [2, 1, 3]
  {
    var a: seq<CallbackId> := [1, 2, 1, 3];
    var b0 := ShiftDown(a, 0);
    assert b0 == [2, 1, 3, 3];
    var b1 := ShiftDown(b0, 1);
    assert b1 == [2, 3, 3, 3];
    ScanNoMatch(b1, 1, 2, true);
    assert Scan(a, 1, 0, false) == Scan(b0, 1, 1, true) == Scan(b1, 1, 2, true);
    assert b1[..3] == [2, 3, 3];
  }

  // ---------------------------------------------------------------- Dispatch

  /** Which callbacks were called, in order, and the error returned to the caller. */
  datatype Delivery<E> = Delivery(invoked: seq<CallbackId>, err: Option<E>)

  /** The result of one dispatch: the single event every callback receives, and the delivery. */
  datatype DispatchResult<S, V, E> = DispatchResult(event: Event<S, V>, delivery: Delivery<E>)

  /** Calls `cbs` in order with `e`, stopping at the first callback that returns an error. */
  function FanOut<S, V, E>(cbs: seq<CallbackId>, e: Event<S, V>, outcome: (CallbackId, Event<S, V>) -> Option<E>)
    : (r: Delivery<E>)
    ensures |r.invoked| <= |cbs| && r.invoked == cbs[..|r.invoked|]
    ensures forall j :: 0 <= j < |r.invoked| - 1 ==> outcome(cbs[j], e).None?
    ensures r.err.None? ==> r.invoked == cbs && forall j :: 0 <= j < |cbs| ==> outcome(cbs[j], e).None?
    ensures r.err.Some? ==> |r.invoked| > 0 && r.err == outcome(cbs[|r.invoked| - 1], e)
  {
    if cbs == [] then Delivery([], None)
    else match outcome(cbs[0], e)
      case Some(err) => Delivery([cbs[0]], Some(err))
      case None =>
        var rest := FanOut(cbs[1..], e, outcome);
        Delivery([cbs[0]] + rest.invoked, rest.err)
  }

  /** `Dispatcher.Dispatch`: builds the event from `t`, the source and `v`, and fans it
      out to the callbacks of `t` in registration order. */
  function Dispatch<S, V, E>(d: Dispatcher<S>, t: EventType, v: V, outcome: (CallbackId, Event<S, V>) -> Option<E>)
    : (r: DispatchResult<S, V, E>)
    ensures r.event.Type() == t && r.event.Source() == d.source && r.event.Value() == v
    ensures |r.delivery.invoked| <= |Callbacks(d, t)|
    ensures r.delivery.invoked == Callbacks(d, t)[..|r.delivery.invoked|]
    ensures r.delivery.err.None? <==> forall j :: 0 <= j < |Callbacks(d, t)| ==> outcome(Callbacks(d, t)[j], r.event).None?
    ensures r.delivery.err.None? ==> r.delivery.invoked == Callbacks(d, t)
  {
    var e := Event(t, d.source, v);
    DispatchResult(e, FanOut(Callbacks(d, t), e, outcome))
  }

  /** If callback `k` is the first to fail, callbacks `0..k` are called, none after `k`,
      and the dispatch returns exactly `k`'s error. */
  lemma DispatchFirstError<S, V, E>(d: Dispatcher<S>, t: EventType, v: V,
                                    outcome: (CallbackId, Event<S, V>) -> Option<E>, k: nat)
    requires k < |Callbacks(d, t)|
    requires outcome(Callbacks(d, t)[k], Event(t, d.source, v)).Some?
    requires forall j :: 0 <= j < k ==> outcome(Callbacks(d, t)[j], Event(t, d.source, v)).None?
    ensures Dispatch(d, t, v, outcome).delivery.invoked == Callbacks(d, t)[..k + 1]
    ensures Dispatch(d, t, v, outcome).delivery.err == outcome(Callbacks(d, t)[k], Event(t, d.source, v))
  {
    var cbs := Callbacks(d, t);
    var e := Event(t, d.source, v);
    var r := FanOut(cbs, e, outcome);
    var n := |r.invoked|;
    assert outcome(cbs[n - 1], e).Some?;
    assert outcome(cbs[k], e).Some?;
  }

  /** When every callback succeeds, all of them are called and the dispatch returns nil;
      with no registrations nothing is called. */
  lemma DispatchAllSucceed<S, V, E>(d: Dispatcher<S>, t: EventType, v: V,
                                    outcome: (CallbackId, Event<S, V>) -> Option<E>)
    requires forall j :: 0 <= j < |Callbacks(d, t)| ==> outcome(Callbacks(d, t)[j], Event(t, d.source, v)).None?
    ensures Dispatch(d, t, v, outcome).delivery == Delivery(Callbacks(d, t), None)
  {
  }

  /** The dispatch loop as the program writes it: `for ... range`, returning the first error. */
  method DispatchLoop<S, V, E>(d: Dispatcher<S>, t: EventType, v: V, outcome: (CallbackId, Event<S, V>) -> Option<E>)
    returns (invoked: seq<CallbackId>, err: Option<E>)
    ensures Delivery(invoked, err) == Dispatch(d, t, v, outcome).delivery
  {
    var e := Event(t, d.source, v);
    var cbs := Callbacks(d, t);
    invoked := [];
    var i := 0;
    while i < |cbs|
      invariant i <= |cbs|
      invariant invoked == cbs[..i]
      invariant forall j :: 0 <= j < i ==> outcome(cbs[j], e).None?
    {
      invoked := invoked + [cbs[i]];
      var res := outcome(cbs[i], e);
      if res.Some? {
        DispatchFirstError(d, t, v, outcome, i);
        err := res;
        return;
      }
      i := i + 1;
    }
    err := None;
    DispatchAllSucceed(d, t, v, outcome);
  }

  // ---------------------------------------------------------------- Operation sequences

  /** One call on the dispatcher after `Init`. */
  datatype Op<V> = RegisterOp(t: EventType, cb: CallbackId)
                 | RemoveOp(t: EventType, cb: CallbackId)
                 | DispatchOp(t: EventType, v: V)

  /** The dispatcher after a call, and what the call returned if it was a dispatch. */
  datatype Step<S, V, E> = Step(after: Dispatcher<S>, result: Option<DispatchResult<S, V, E>>)

  function Apply<S, V, E>(d: Dispatcher<S>, op: Op<V>, outcome: (CallbackId, Event<S, V>) -> Option<E>)
    : (r: Step<S, V, E>)
    ensures r.after.source == d.source
    ensures op.DispatchOp? ==> r.after == d && r.result.Some?
    ensures !op.DispatchOp? ==> r.result.None?
    ensures op.DispatchOp? ==> r.result == Some(Dispatch(d, op.t, op.v, outcome))
    ensures op.RegisterOp? ==> Callbacks(r.after, op.t) == Callbacks(d, op.t) + [op.cb]
    ensures op.RemoveOp? ==> r.after == Remove(d, op.t, op.cb)
  {
    match op
    case RegisterOp(t, cb) => Step(Register(d, t, cb), None)
    case RemoveOp(t, cb) => Step(Remove(d, t, cb), None)
    case DispatchOp(t, v) => Step(d, Some(Dispatch(d, t, v, outcome)))
  }

  /** The dispatcher after a sequence of calls. */
  function Run<S, V, E>(d: Dispatcher<S>, ops: seq<Op<V>>, outcome: (CallbackId, Event<S, V>) -> Option<E>)
    : Dispatcher<S>
    decreases |ops|
  {
    if ops == [] then d else Run(Apply(d, ops[0], outcome).after, ops[1..], outcome)
  }

  /** The source set by `Init` is never changed by any sequence of calls. */
  lemma {:induction false} RunKeepsSource<S, V, E>(d: Dispatcher<S>, ops: seq<Op<V>>,
                                                   outcome: (CallbackId, Event<S, V>) -> Option<E>)
    ensures Run(d, ops, outcome).source == d.source
    decreases |ops|
  {
    if ops != [] {
      RunKeepsSource(Apply(d, ops[0], outcome).after, ops[1..], outcome);
    }
  }

  /** Registrations only: `t` ends up with its callbacks in registration order,
      duplicates included. */
  function RegisterAll<S>(d: Dispatcher<S>, t: EventType, cbs: seq<CallbackId>): Dispatcher<S>
    decreases |cbs|
  {
    if cbs == [] then d else RegisterAll(Register(d, t, cbs[0]), t, cbs[1..])
  }

  lemma {:induction false} RegisterAllOrder<S>(d: Dispatcher<S>, t: EventType, cbs: seq<CallbackId>)
    ensures Callbacks(RegisterAll(d, t, cbs), t) == Callbacks(d, t) + cbs
    ensures RegisterAll(d, t, cbs).source == d.source
    decreases |cbs|
  {
    if cbs != [] {
      RegisterAllOrder(Register(d, t, cbs[0]), t, cbs[1..]);
      assert [cbs[0]] + cbs[1..] == cbs;
    }
  }

  /** After registering `cbs` on a fresh dispatcher, a dispatch in which every callback
      succeeds calls them exactly in registration order, once per registration. */
  lemma DispatchInRegistrationOrder<S, V, E>(src: S, t: EventType, cbs: seq<CallbackId>, v: V,
                                             outcome: (CallbackId, Event<S, V>) -> Option<E>)
    requires forall c :: outcome(c, Event(t, src, v)).None?
    ensures Dispatch(RegisterAll(Init(src), t, cbs), t, v, outcome).delivery == Delivery(cbs, None)
  {
    RegisterAllOrder(Init(src), t, cbs);
  }
}
