/**
 * The counter as a state machine over mathematical numbers: its state, the
 * events that change it, and what each event does. The class in CounterApp is
 * proved to follow these functions; the lemmas here say what they guarantee.
 */
module CounterSpec {
  import opened Wrappers

  /**
   * What a caller can pass to `setValue`: a JavaScript number (modelled as a
   * real), the number NaN, or any value whose `typeof` is not 'number'.
   */
  datatype JsValue = Num(n: real) | NaN | NotANumber

  /**
   * The counter's `value` and the text of its display element: `None` when the
   * page has no `counter-value` element, otherwise the number shown.
   */
  datatype State = State(value: real, display: Option<real>)

  /** The calls that may change the state. */
  datatype Event = Increment | Reset | SetValue(arg: JsValue)

  /** The guard of `setValue`: a number, not NaN, and not negative; fractions pass. */
  predicate Accepts(arg: JsValue)
    ensures Accepts(arg) ==> arg.Num?
    ensures arg.Num? ==> (Accepts(arg) <==> arg.n >= 0.0)
  {
    arg.Num? && arg.n >= 0.0
  }

  /** `updateDisplay`: copy the value into the display element, if there is one. */
  function Render(s: State): (r: State)
    ensures r.value == s.value
    ensures r.display.Some? == s.display.Some?
    ensures r.display.Some? ==> r.display.value == s.value
  {
    if s.display.Some? then s.(display := Some(s.value)) else s
  }

  /**
   * The state right after construction, from the display text `loaded` the
   * page had: value 0, then rendered, so that a display shows 0.
   */
  function Initial(loaded: Option<real>): (r: State)
    ensures Consistent(r)
    ensures r.value == 0.0
    ensures r.display == if loaded.Some? then Some(0.0) else None
  {
    Render(State(0.0, loaded))
  }

  /** One event: every event keeps the invariant and never adds or removes the display. */
  function Apply(s: State, e: Event): (r: State)
    ensures r.display.Some? == s.display.Some?
    ensures Consistent(s) ==> Consistent(r)
  {
    match e
    case Increment => Render(s.(value := s.value + 1.0))
    case Reset => Render(s.(value := 0.0))
    case SetValue(arg) => if Accepts(arg) then Render(s.(value := arg.n)) else s
  }

  /** The state after the events `es`, in order. */
  function Run(s: State, es: seq<Event>): State
    decreases |es|
  {
    if es == [] then s else Run(Apply(s, es[0]), es[1..])
  }

  /** The events of `es` that change anything: rejected `setValue` calls dropped. */
  function Effective(es: seq<Event>): seq<Event>
  {
    if es == [] then []
    else if es[0].SetValue? && !Accepts(es[0].arg) then Effective(es[1..])
    else [es[0]] + Effective(es[1..])
  }

  /** The counter's invariant: never negative, and the display shows the value. */
  predicate Consistent(s: State) {
    s.value >= 0.0 && (s.display.Some? ==> s.display.value == s.value)
  }

  /** Any sequence of events keeps the invariant. */
  lemma {:induction false} RunKeepsConsistent(s: State, es: seq<Event>)
    requires Consistent(s)
    ensures Consistent(Run(s, es))
    ensures Run(s, es).display.Some? == s.display.Some?
    decreases |es|
  {
    if es != [] {
      RunKeepsConsistent(Apply(s, es[0]), es[1..]);
    }
  }

  /** Running `a` and then `b` is running `a + b`. */
  lemma {:induction false} RunAppend(s: State, a: seq<Event>, b: seq<Event>)
    ensures Run(s, a + b) == Run(Run(s, a), b)
    decreases |a|
  {
    if a != [] {
      assert (a + b)[0] == a[0] && (a + b)[1..] == a[1..] + b;
      RunAppend(Apply(s, a[0]), a[1..], b);
    } else {
      assert a + b == b;
    }
  }

  /** k increments add exactly k, and the display then shows the new value. */
  lemma {:induction false} IncrementsAdd(s: State, k: nat)
    requires Consistent(s)
    ensures Run(s, seq(k, _ => Increment)).value == s.value + k as real
    ensures Run(s, seq(k, _ => Increment)).display ==
      if s.display.Some? then Some(s.value + k as real) else None
  {
    if k > 0 {
      var incs := seq(k, _ => Increment);
      assert incs == seq(k - 1, _ => Increment) + [Increment];
      IncrementsAdd(s, k - 1);
      RunAppend(s, seq(k - 1, _ => Increment), [Increment]);
    }
  }

  /** Reset yields 0 from any prior value, and the display shows 0. */
  lemma ResetClears(s: State)
    ensures Apply(s, Reset).value == 0.0
    ensures Apply(s, Reset).display == if s.display.Some? then Some(0.0) else None
  {
  }

  /** Resetting twice gives the same state as resetting once. */
  lemma ResetIdempotent(s: State)
    ensures Apply(Apply(s, Reset), Reset) == Apply(s, Reset)
  {
  }

  /** An accepted `setValue` stores the number, integral or not, and renders it. */
  lemma SetValueStores(s: State, n: real)
    requires n >= 0.0
    ensures Accepts(Num(n))
    ensures Apply(s, SetValue(Num(n))) == State(n, if s.display.Some? then Some(n) else None)
  {
  }

  /** A rejected `setValue` changes neither the value nor the display. */
  lemma SetValueRejected(s: State, arg: JsValue)
    requires arg == NaN || arg == NotANumber || (arg.Num? && arg.n < 0.0)
    ensures !Accepts(arg)
    ensures Apply(s, SetValue(arg)) == s
  {
  }

  /** Rejected `setValue` calls are invisible: dropping them gives the same final state. */
  lemma {:induction false} RejectedCallsInvisible(s: State, es: seq<Event>)
    ensures Run(s, es) == Run(s, Effective(es))
    decreases |es|
  {
    if es != [] {
      if es[0].SetValue? && !Accepts(es[0].arg) {
        assert Apply(s, es[0]) == s;
        RejectedCallsInvisible(s, es[1..]);
      } else {
        var rest := Effective(es[1..]);
        assert ([es[0]] + rest)[0] == es[0] && ([es[0]] + rest)[1..] == rest;
        RejectedCallsInvisible(Apply(s, es[0]), es[1..]);
      }
    }
  }

  /** The number a reset or an accepted `setValue` leaves in the counter. */
  function Target(e: Event): real
    requires e.Reset? || (e.SetValue? && Accepts(e.arg))
  {
    if e.Reset? then 0.0 else e.arg.n
  }

  /**
   * After a reset or an accepted `setValue` followed only by rejected
   * `setValue` calls, the value read is the one that call stored.
   */
  lemma {:induction false} LastAssignmentWins(s: State, before: seq<Event>, e: Event, after: seq<Event>)
    requires e.Reset? || (e.SetValue? && Accepts(e.arg))
    requires forall i :: 0 <= i < |after| ==> after[i].SetValue? && !Accepts(after[i].arg)
    ensures Run(s, before + [e] + after).value == Target(e)
  {
    RunAppend(s, before + [e], after);
    RunAppend(s, before, [e]);
    var t := Run(s, before + [e]);
    assert Run(t, after) == t by {
      RejectedOnlyIsNoOp(t, after);
    }
  }

  lemma {:induction false} RejectedOnlyIsNoOp(s: State, es: seq<Event>)
    requires forall i :: 0 <= i < |es| ==> es[i].SetValue? && !Accepts(es[i].arg)
    ensures Run(s, es) == s
    decreases |es|
  {
    if es != [] {
      assert es[0].SetValue? && !Accepts(es[0].arg);
      assert forall i :: 0 <= i < |es[1..]| ==> es[1..][i] == es[i + 1];
      RejectedOnlyIsNoOp(s, es[1..]);
    }
  }

  /** Start, increment, increment: the value read is 2. */
  lemma ScenarioTwoIncrements(loaded: Option<real>)
    ensures Run(Initial(loaded), [Increment, Increment]).value == 2.0
  {
    IncrementsAdd(Initial(loaded), 2);
    assert seq(2, _ => Increment) == [Increment, Increment];
  }

  /** `setValue(3.5)` is accepted: the guard rejects only non-numbers, NaN and negatives. */
  lemma ScenarioFractionAccepted(s: State)
    ensures Accepts(Num(3.5))
    ensures Apply(s, SetValue(Num(3.5))).value == 3.5
  {
  }
}
