/**
 * The `Counter` class of the counter widget: construction against a page,
 * the click handlers, the state-changing methods and the page-load handler.
 * Every method is proved to follow the state machine in CounterSpec.
 */
module CounterApp {
  import opened Wrappers
  import opened Dom
  import opened CounterSpec

  /**
   * Construction throws when a button lookup returned null. The script's
   * TypeError names no element; `id` records which of the two lookups failed.
   */
  datatype InitError = MissingButton(id: string)

  /**
   * Whether `init` throws on `doc`: the increment button is dereferenced first,
   * then the reset button; a missing display element is tolerated.
   */
  function InitFailure(doc: Document): (r: Option<InitError>)
    ensures r == None <==> doc.Has(IncrementBtnId) && doc.Has(ResetBtnId)
    ensures r.Some? ==> !doc.Has(r.value.id)
    ensures !doc.Has(IncrementBtnId) ==> r == Some(MissingButton(IncrementBtnId))
    ensures doc.Has(IncrementBtnId) && !doc.Has(ResetBtnId) ==> r == Some(MissingButton(ResetBtnId))
  {
    if !doc.Has(IncrementBtnId) then Some(MissingButton(IncrementBtnId))
    else if !doc.Has(ResetBtnId) then Some(MissingButton(ResetBtnId))
    else None
  }

  class Counter {
    var value: real
    /** The text of the `counter-value` element; `None` when the page has none. */
    var display: Option<real>

    /** The abstract state the methods are specified against. */
    function Snapshot(): State
      reads this
    {
      State(value, display)
    }

    ghost predicate Valid()
      reads this
    {
      Consistent(Snapshot())
    }

    /**
     * A construction that does not throw: value 0, then `init` looks up the
     * display element, binds the two click handlers and renders.
     */
    constructor (doc: Document)
      requires InitFailure(doc) == None
      ensures Snapshot() == Initial(doc.LoadedDisplay())
      ensures Valid()
    {
      value := 0.0;
      display := doc.LoadedDisplay();
      new;
      UpdateDisplay();
    }

    /** Copy the value into the display element, if the page has one. */
    method UpdateDisplay()
      modifies this
      ensures Snapshot() == Render(old(Snapshot()))
    {
      if display.Some? {
        display := Some(value);
      }
    }

    method Increment()
      modifies this
      ensures old(Valid()) ==> Valid()
      ensures Snapshot() == Apply(old(Snapshot()), Event.Increment)
      ensures value == old(value) + 1.0
    {
      value := value + 1.0;
      UpdateDisplay();
    }

    method Reset()
      modifies this
      ensures old(Valid()) ==> Valid()
      ensures Snapshot() == Apply(old(Snapshot()), Event.Reset)
      ensures value == 0.0
    {
      value := 0.0;
      UpdateDisplay();
    }

    /** The current value; reads only. */
    method GetValue() returns (v: real)
      ensures v == value
    {
      v := value;
    }

    /** Store `arg` and render, if it is a non-negative number; report whether it was stored. */
    method SetValue(arg: JsValue) returns (ok: bool)
      modifies this
      ensures old(Valid()) ==> Valid()
      ensures ok == Accepts(arg)
      ensures Snapshot() == Apply(old(Snapshot()), Event.SetValue(arg))
      ensures ok ==> value == arg.n
      ensures !ok ==> Snapshot() == old(Snapshot())
    {
      if Accepts(arg) {
        value := arg.n;
        UpdateDisplay();
        return true;
      }
      return false;
    }

    /**
     * A click event reaching element `id` (after bubbling, the button whose
     * listener handles it): the handlers bound by `init` call increment or reset.
     */
    method Click(id: string)
      modifies this
      ensures old(Valid()) ==> Valid()
      ensures Snapshot() ==
        if id == IncrementBtnId then Apply(old(Snapshot()), Event.Increment)
        else if id == ResetBtnId then Apply(old(Snapshot()), Event.Reset)
        else old(Snapshot())
    {
      if id == IncrementBtnId {
        Increment();
      } else if id == ResetBtnId {
        Reset();
      }
    }
  }

  /** `new Counter()` on `doc`: a fresh counter, or the error `init` throws. */
  method Create(doc: Document) returns (r: Result<Counter, InitError>)
    ensures r.Failure? <==> InitFailure(doc).Some?
    ensures r.Failure? ==> InitFailure(doc) == Some(r.error)
    ensures r.Success? ==> fresh(r.value) && r.value.Valid()
    ensures r.Success? ==> r.value.Snapshot() == Initial(doc.LoadedDisplay())
  {
    var failure := InitFailure(doc);
    if failure.Some? {
      return Failure(failure.value);
    }
    var c := new Counter(doc);
    return Success(c);
  }

  /** What the page-load handler leaves behind when construction succeeds. */
  datatype Loaded = Loaded(counter: Counter, missing: seq<string>)

  /**
   * The page-load handler: construct the counter, then list the required
   * elements that are absent. A throwing construction ends the handler
   * before the list is computed.
   */
  method OnLoad(doc: Document) returns (r: Result<Loaded, InitError>)
    ensures r.Failure? <==> InitFailure(doc).Some?
    ensures r.Failure? ==> InitFailure(doc) == Some(r.error)
    ensures r.Success? ==> fresh(r.value.counter) && r.value.counter.Valid()
    ensures r.Success? ==> r.value.counter.Snapshot() == Initial(doc.LoadedDisplay())
    ensures r.Success? ==> r.value.missing == MissingRequired(doc)
  {
    var created := Create(doc);
    if created.Failure? {
      return Failure(created.error);
    }
    return Success(Loaded(created.value, MissingRequired(doc)));
  }

  /**
   * Once construction has succeeded both buttons exist, so the page-load
   * report can only ever name the display element.
   */
  lemma ReportAfterConstruction(doc: Document)
    requires InitFailure(doc) == None
    ensures MissingRequired(doc) == if doc.Has(CounterValueId) then [] else [CounterValueId]
  {
    var req := RequiredElements;
    assert req[1..][0] == IncrementBtnId && req[1..][1..] == [ResetBtnId] && [ResetBtnId][1..] == [];
    assert Missing([ResetBtnId], doc) == [];
    assert Missing(req[1..], doc) == [];
  }
}
