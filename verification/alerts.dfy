/**
 * The alerts context: a list of alerts shown in order of arrival and a set of ids whose exit
 * animation is running. Removal has two phases: the id first joins the exiting set, and when
 * the animation's timer fires the alert leaves the list and its id leaves the set. The alert
 * id (built from the clock and a random number) and the timers are inputs here: the caller
 * passes the id and fires the completion phase itself.
 */
module Alerts {
  import opened Wrappers

  datatype AlertType = Success | Error

  /** A call to action; its click handler is left out. */
  datatype Cta = Cta(text: string)

  datatype Alert = Alert(id: string, kind: AlertType, message: string, cta: Option<Cta>)

  datatype State = State(alerts: seq<Alert>, exiting: set<string>)

  const Empty: State := State([], {})

  /** The exit animation's length in milliseconds, after which the completion phase runs. */
  const EXIT_DELAY: nat := 300

  /** How long an alert stays before it dismisses itself: longer when it carries a call to
      action. */
  function AutoDismissDelay(cta: Option<Cta>): (r: nat)
    ensures cta.Some? ==> r == 10000
    ensures cta.None? ==> r == 5000
  {
    if cta.Some? then 10000 else 5000
  }

  /** `showAlert`: the new alert, and the delay after which `removeAlert` is scheduled for
      its id. */
  function ShowAlert(st: State, id: string, kind: AlertType, message: string, cta: Option<Cta>): (r: (State, nat))
    ensures |r.0.alerts| == |st.alerts| + 1
    ensures r.0.alerts[..|st.alerts|] == st.alerts
    ensures r.0.alerts[|st.alerts|] == Alert(id, kind, message, cta)
    ensures r.0.exiting == st.exiting
    ensures r.1 == AutoDismissDelay(cta)
  {
    (State(st.alerts + [Alert(id, kind, message, cta)], st.exiting), AutoDismissDelay(cta))
  }

  /** The first phase of `removeAlert`: mark the id as exiting. */
  function BeginRemove(st: State, id: string): (r: State)
    ensures r.alerts == st.alerts
    ensures r.exiting == st.exiting + {id}
  {
    State(st.alerts, st.exiting + {id})
  }

  /** `prev.filter((alert) => alert.id !== id)`. */
  function WithoutId(alerts: seq<Alert>, id: string): (r: seq<Alert>)
    ensures |r| <= |alerts|
    ensures forall a :: a in r <==> a in alerts && a.id != id
    ensures (forall i :: 0 <= i < |alerts| ==> alerts[i].id != id) ==> r == alerts
  {
    if alerts == [] then []
    else
      var rest := WithoutId(alerts[1..], id);
      assert forall a :: a in alerts <==> a == alerts[0] || a in alerts[1..];
      if alerts[0].id == id then rest else [alerts[0]] + rest
  }

  /** Filtering distributes over appending, so the survivors keep their order. */
  lemma {:induction false} WithoutIdAppend(xs: seq<Alert>, ys: seq<Alert>, id: string)
    ensures WithoutId(xs + ys, id) == WithoutId(xs, id) + WithoutId(ys, id)
    decreases |xs|
  {
    if xs == [] {
      assert xs + ys == ys;
    } else {
      assert (xs + ys)[1..] == xs[1..] + ys;
      WithoutIdAppend(xs[1..], ys, id);
    }
  }

  /** The second phase of `removeAlert`, run when the animation timer fires. */
  function CompleteRemove(st: State, id: string): (r: State)
    ensures forall a :: a in r.alerts <==> a in st.alerts && a.id != id
    ensures r.exiting == st.exiting - {id}
  {
    State(WithoutId(st.alerts, id), st.exiting - {id})
  }

  /** Removing an id no alert carries leaves the list unchanged. */
  lemma RemoveUnknownId(st: State, id: string)
    requires forall i :: 0 <= i < |st.alerts| ==> st.alerts[i].id != id
    ensures CompleteRemove(BeginRemove(st, id), id).alerts == st.alerts
  {
  }

  /** Both phases are idempotent: a second `removeAlert` for the same id (the close button and
      the auto-dismiss timer both call it) changes nothing further. */
  lemma {:induction false} RemoveTwice(st: State, id: string)
    ensures BeginRemove(BeginRemove(st, id), id) == BeginRemove(st, id)
    ensures CompleteRemove(CompleteRemove(st, id), id) == CompleteRemove(st, id)
  {
    var once := CompleteRemove(st, id);
    assert forall i :: 0 <= i < |once.alerts| ==> once.alerts[i].id != id by {
      forall i | 0 <= i < |once.alerts|
        ensures once.alerts[i].id != id
      {
        assert once.alerts[i] in once.alerts;
      }
    }
  }

  /** Showing an alert with a fresh id and then removing it in both phases gives back the
      state before it was shown, as long as the id was not already exiting. */
  lemma ShowThenRemoveRestores(st: State, id: string, kind: AlertType, message: string, cta: Option<Cta>)
    requires forall i :: 0 <= i < |st.alerts| ==> st.alerts[i].id != id
    requires id !in st.exiting
    ensures CompleteRemove(BeginRemove(ShowAlert(st, id, kind, message, cta).0, id), id) == st
  {
    var a := Alert(id, kind, message, cta);
    WithoutIdAppend(st.alerts, [a], id);
    assert WithoutId([a], id) == [] by {
      assert [a][1..] == [];
    }
  }

  /** Removing one alert leaves every other alert in its place relative to the others. */
  lemma RemoveKeepsOthersInOrder(st: State, before: seq<Alert>, a: Alert, after: seq<Alert>)
    requires st.alerts == before + [a] + after
    requires forall i :: 0 <= i < |before| ==> before[i].id != a.id
    requires forall i :: 0 <= i < |after| ==> after[i].id != a.id
    ensures CompleteRemove(st, a.id).alerts == before + after
  {
    WithoutIdAppend(before + [a], after, a.id);
    WithoutIdAppend(before, [a], a.id);
    assert WithoutId([a], a.id) == [] by {
      assert [a][1..] == [];
    }
    calc {
      CompleteRemove(st, a.id).alerts;
      WithoutId(before + [a] + after, a.id);
      WithoutId(before + [a], a.id) + WithoutId(after, a.id);
      WithoutId(before, a.id) + [] + WithoutId(after, a.id);
      { assert WithoutId(before, a.id) == before; assert WithoutId(after, a.id) == after; }
      before + [] + after;
    }
    assert before + [] == before;
  }
}
