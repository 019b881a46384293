/**
 * The page the counter is attached to, seen only through the element ids that
 * `document.getElementById` can find, and the start-up check that lists which
 * of the required elements are absent.
 */
module Dom {
  import opened Wrappers

  /**
   * A loaded page: the set of element ids present in it, and the number the
   * `counter-value` element's text shows before the counter first renders.
   */
  datatype Document = Document(ids: set<string>, displayText: real) {
    /** `document.getElementById(id)` returns an element rather than null. */
    predicate Has(id: string) {
      id in ids
    }

    /** The display element's text as the page was loaded; `None` when there is no such element. */
    function LoadedDisplay(): Option<real> {
      if Has(CounterValueId) then Some(displayText) else None
    }
  }

  /** The display element whose text shows the count. */
  const CounterValueId: string := "counter-value"
  /** The button whose click increments the count. */
  const IncrementBtnId: string := "increment-btn"
  /** The button whose click resets the count. */
  const ResetBtnId: string := "reset-btn"

  /** The required ids, in the order the start-up check lists them. */
  const RequiredElements: seq<string> := [CounterValueId, IncrementBtnId, ResetBtnId]

  /**
   * The ids of `ids` that the page lacks, in their order in `ids`, each kept
   * as often as it occurs there.
   */
  function Missing(ids: seq<string>, doc: Document): (r: seq<string>)
    ensures |r| <= |ids|
    ensures forall i :: 0 <= i < |r| ==> r[i] in ids && !doc.Has(r[i])
  {
    if ids == [] then []
    else (if doc.Has(ids[0]) then [] else [ids[0]]) + Missing(ids[1..], doc)
  }

  /** The list the page-load handler reports. */
  function MissingRequired(doc: Document): (r: seq<string>)
    ensures |r| <= 3
    ensures forall i :: 0 <= i < |r| ==> r[i] in RequiredElements && !doc.Has(r[i])
  {
    Missing(RequiredElements, doc)
  }

  /** `a` is obtained from `b` by deleting elements, so `a` keeps `b`'s order. */
  ghost predicate IsSubsequence(a: seq<string>, b: seq<string>)
    decreases |b|
  {
    if b == [] then a == []
    else (a != [] && a[0] == b[0] && IsSubsequence(a[1..], b[1..])) || IsSubsequence(a, b[1..])
  }

  /**
   * An id is reported exactly when it is one of those checked and the page
   * lacks it. With `MissingIsSubsequence` this fixes the report only for
   * lists without repeats, such as `RequiredElements`.
   */
  lemma {:induction false} MissingMembers(ids: seq<string>, doc: Document, x: string)
    ensures x in Missing(ids, doc) <==> x in ids && !doc.Has(x)
  {
    if ids != [] {
      MissingMembers(ids[1..], doc, x);
      assert ids == [ids[0]] + ids[1..];
    }
  }

  /** The report keeps the order of the checked ids. */
  lemma {:induction false} MissingIsSubsequence(ids: seq<string>, doc: Document)
    ensures IsSubsequence(Missing(ids, doc), ids)
  {
    if ids != [] {
      MissingIsSubsequence(ids[1..], doc);
      var rest := Missing(ids[1..], doc);
      if doc.Has(ids[0]) {
        assert Missing(ids, doc) == rest;
      } else {
        assert Missing(ids, doc) == [ids[0]] + rest;
        assert (Missing(ids, doc))[1..] == rest;
      }
    }
  }

  /** Nothing is reported exactly when every checked id is present. */
  lemma {:induction false} MissingEmptyIff(ids: seq<string>, doc: Document)
    ensures Missing(ids, doc) == [] <==> forall i :: 0 <= i < |ids| ==> doc.Has(ids[i])
  {
    if ids != [] {
      MissingEmptyIff(ids[1..], doc);
      assert forall i :: 1 <= i < |ids| ==> ids[i] == ids[1..][i - 1];
    }
  }

  /** The page-load report is empty exactly when all three required elements exist. */
  lemma MissingRequiredEmptyIff(doc: Document)
    ensures MissingRequired(doc) == [] <==>
      doc.Has(CounterValueId) && doc.Has(IncrementBtnId) && doc.Has(ResetBtnId)
  {
    MissingEmptyIff(RequiredElements, doc);
    assert RequiredElements[0] == CounterValueId;
    assert RequiredElements[1] == IncrementBtnId;
    assert RequiredElements[2] == ResetBtnId;
  }

  /** With exactly one required element absent, the report names exactly that one. */
  lemma OneMissing(doc: Document, id: string)
    requires id in RequiredElements
    requires forall r :: r in RequiredElements ==> (doc.Has(r) <==> r != id)
    ensures MissingRequired(doc) == [id]
  {
    var req := RequiredElements;
    // the three ids differ already in their first letter
    assert CounterValueId[0] == 'c' && IncrementBtnId[0] == 'i' && ResetBtnId[0] == 'r';
    assert req[0] in req && req[1] in req && req[2] in req;
    assert req[1..][0] == IncrementBtnId && req[1..][1..] == [ResetBtnId] && [ResetBtnId][1..] == [];
    var tail := if doc.Has(ResetBtnId) then [] else [ResetBtnId];
    assert Missing([ResetBtnId], doc) == tail;
    var mid := (if doc.Has(IncrementBtnId) then [] else [IncrementBtnId]) + tail;
    assert Missing(req[1..], doc) == mid;
    assert MissingRequired(doc) == (if doc.Has(CounterValueId) then [] else [CounterValueId]) + mid;
  }
}
