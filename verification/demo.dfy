/**
  The sample program's sequence of calls, replayed against the model, and the
  fail-fast behaviour on a category whose first callback fails.
 */
module Demo {
  import opened Events
  import opened Dispatching

  /** The sample program's dispatcher after `Init("arni")` and registering two handlers
      on the message category. */
  function DemoRegistered(h1: CallbackId, h2: CallbackId): Dispatcher<string> {
    Register(Register(Init("arni"), MessageEvent, h1), MessageEvent, h2)
  }

  /** The message callbacks before and after the sample program removes its first handler. */
  lemma DemoTable(h1: CallbackId, h2: CallbackId)
    requires h1 != h2
    ensures DemoRegistered(h1, h2).source == "arni"
    ensures Callbacks(DemoRegistered(h1, h2), MessageEvent) == [h1, h2]
    ensures Remove(DemoRegistered(h1, h2), MessageEvent, h1).source == "arni"
    ensures Callbacks(Remove(DemoRegistered(h1, h2), MessageEvent, h1), MessageEvent) == [h2]
  {
    var d1 := Register(Init("arni"), MessageEvent, h1);
    assert Callbacks(d1, MessageEvent) == [h1];
    var d := Register(d1, MessageEvent, h2);
    assert Callbacks(d, MessageEvent) == [h1, h2];
    RemoveExactlyOnce(d, MessageEvent, h1, 0);
  }

  /** The sample program: two handlers on the message category, a dispatch, removal of
      the first handler, and a second dispatch that reaches only the second handler. */
  lemma MainScenario<E>(h1: CallbackId, h2: CallbackId, outcome: (CallbackId, Event<string, string>) -> Option<E>)
    requires h1 != h2
    requires forall c, e :: outcome(c, e).None?
    ensures var first := Dispatch(DemoRegistered(h1, h2), MessageEvent, "First Hello World!", outcome);
            && first.event == Event(MessageEvent, "arni", "First Hello World!")
            && first.delivery == Delivery([h1, h2], None)
    ensures var second := Dispatch(Remove(DemoRegistered(h1, h2), MessageEvent, h1), MessageEvent,
                                   "Second Hello World!", outcome);
            && second.event == Event(MessageEvent, "arni", "Second Hello World!")
            && second.delivery == Delivery([h2], None)
  {
    DemoTable(h1, h2);
    var d := DemoRegistered(h1, h2);
    var d' := Remove(d, MessageEvent, h1);
    DispatchAllSucceed(d, MessageEvent, "First Hello World!", outcome);
    DispatchAllSucceed(d', MessageEvent, "Second Hello World!", outcome);
  }

  /** A failing handler registered before a normal one on the commit category: the
      dispatch calls the failing handler only and returns its error. */
  lemma FailFastScenario<S, V, E>(src: S, failing: CallbackId, normal: CallbackId, x: V,
                                  outcome: (CallbackId, Event<S, V>) -> Option<E>, err: E)
    requires outcome(failing, Event(CommitEvent, src, x)) == Some(err)
    ensures var d := Register(Register(Init(src), CommitEvent, failing), CommitEvent, normal);
            Dispatch(d, CommitEvent, x, outcome).delivery == Delivery([failing], Some(err))
  {
    var d := Register(Register(Init(src), CommitEvent, failing), CommitEvent, normal);
    assert Callbacks(d, CommitEvent) == [failing, normal];
    DispatchFirstError(d, CommitEvent, x, outcome, 0);
  }
}
