/**
 * The page as the content script sees it: elements in document order, the
 * CSS selectors it queries, the question-page detector, the search for the
 * skip-confirmation button, the filter over mutation batches and the
 * classifier for clicked buttons.
 */
module Dom {
  import opened Wrappers
  import opened Text

  /**
   * One element of the page. `attrs` holds its attributes, `text` its
   * `textContent`, and `divRoles` the `role` attribute of every `div` that
   * encloses it (what a descendant selector such as `div[role="dialog"] button`
   * looks at). Tag names are lower case.
   */
  datatype Element = Element(
    tag: string,
    classes: set<string>,
    attrs: map<string, string>,
    text: string,
    divRoles: set<string>)

  /** A page: its elements in document order. */
  type Document = seq<Element>

  /** The selector forms the content script queries. */
  datatype Selector =
    | AttrIs(name: string, value: string)                  // [name="value"]
    | HasClass(name: string)                                // .name
    | TagIs(tag: string)                                    // tag
    | TagAttrIs(tag: string, name: string, value: string)  // tag[name="value"]
    | TagInDivRole(role: string, tag: string)              // div[role="role"] tag

  predicate Matches(sel: Selector, e: Element) {
    match sel
    case AttrIs(n, v) => n in e.attrs && e.attrs[n] == v
    case HasClass(c) => c in e.classes
    case TagIs(t) => e.tag == t
    case TagAttrIs(t, n, v) => e.tag == t && n in e.attrs && e.attrs[n] == v
    case TagInDivRole(r, t) => r in e.divRoles && e.tag == t
  }

  /** `querySelector`: the position of the first element in document order that matches. */
  function QuerySelector(doc: Document, sel: Selector): (r: Option<nat>)
    ensures r.Some? ==> r.value < |doc| && Matches(sel, doc[r.value])
    ensures r.Some? ==> forall j :: 0 <= j < r.value ==> !Matches(sel, doc[j])
    ensures r.None? <==> forall j :: 0 <= j < |doc| ==> !Matches(sel, doc[j])
  {
    if |doc| == 0 then None
    else if Matches(sel, doc[0]) then Some(0)
    else match QuerySelector(doc[1..], sel)
      case None => None
      case Some(k) => Some(k + 1)
  }

  // ---------------------------------------------------------------------------
  // Page detection (content.js:47-66)

  /** The nine indicators `isQuestionPage` looks for, in the order it lists them. */
  const QuestionIndicators: seq<Selector> := [
    AttrIs("data-testid", "exercise-skip-button"),
    AttrIs("data-test-id", "question-area"),
    AttrIs("role", "article"),
    HasClass("perseus-renderer"),
    HasClass("framework-perseus"),
    HasClass("exercise-wrapper"),
    AttrIs("data-test-id", "exercise-container"),
    HasClass("sat-section-instructions"),
    AttrIs("data-test-id", "modal-content")
  ]

  /** The skip button that `clickSkipButton` looks up (content.js:231). */
  const SkipButtonSelector: Selector := AttrIs("data-testid", "exercise-skip-button")

  /** Some indicator's `querySelector` is non-null. */
  predicate IsQuestionPage(doc: Document)
    ensures IsQuestionPage(doc) <==>
      exists i, k :: 0 <= i < |doc| && 0 <= k < |QuestionIndicators| && Matches(QuestionIndicators[k], doc[i])
  {
    exists k | 0 <= k < |QuestionIndicators| :: QuerySelector(doc, QuestionIndicators[k]).Some?
  }

  predicate SkipButtonPresent(doc: Document) {
    QuerySelector(doc, SkipButtonSelector).Some?
  }

  /** The skip button is itself an indicator, so a page with one is a question page. */
  lemma SkipButtonMeansQuestionPage(doc: Document)
    requires SkipButtonPresent(doc)
    ensures IsQuestionPage(doc)
  {
    var i := QuerySelector(doc, SkipButtonSelector).value;
    assert Matches(QuestionIndicators[0], doc[i]);
  }

  /**
   * Detection looks at each element on its own: a page made of two parts is a
   * question page exactly when one of the parts is.
   */
  lemma QuestionPageConcat(d1: Document, d2: Document)
    ensures IsQuestionPage(d1 + d2) <==> IsQuestionPage(d1) || IsQuestionPage(d2)
  {
    var d := d1 + d2;
    if IsQuestionPage(d) {
      var i, k :| 0 <= i < |d| && 0 <= k < |QuestionIndicators| && Matches(QuestionIndicators[k], d[i]);
      if i < |d1| {
        assert d1[i] == d[i];
      } else {
        assert d2[i - |d1|] == d[i];
      }
    }
    if IsQuestionPage(d1) {
      var i, k :| 0 <= i < |d1| && 0 <= k < |QuestionIndicators| && Matches(QuestionIndicators[k], d1[i]);
      assert d[i] == d1[i];
    }
    if IsQuestionPage(d2) {
      var i, k :| 0 <= i < |d2| && 0 <= k < |QuestionIndicators| && Matches(QuestionIndicators[k], d2[i]);
      assert d[|d1| + i] == d2[i];
    }
  }

  // ---------------------------------------------------------------------------
  // The confirmation button (content.js:195-227)

  /** The selectors `clickConfirmSkip` tries, most specific first. */
  const ConfirmSelectors: seq<Selector> := [
    AttrIs("data-test-id", "skip-confirm-button"),
    TagAttrIs("button", "aria-label", "Yes, skip"),
    TagInDivRole("dialog", "button"),
    TagInDivRole("modal", "button"),
    TagIs("button")
  ]

  /** The lower-cased, trimmed text contains both "yes" and "skip". */
  predicate ConfirmLabel(e: Element) {
    var t := Trim(Lower(e.text));
    Contains(t, "yes") && Contains(t, "skip")
  }

  /** Element `i` is matched by confirm selector `s` and carries a confirm label. */
  ghost predicate ConfirmCandidate(doc: Document, s: int, i: int) {
    0 <= s < |ConfirmSelectors| && 0 <= i < |doc| &&
    Matches(ConfirmSelectors[s], doc[i]) && ConfirmLabel(doc[i])
  }

  /** One `querySelectorAll(selector)` pass: the first labelled match in document order. */
  method FindInSelector(doc: Document, s: nat) returns (r: Option<nat>)
    requires s < |ConfirmSelectors|
    ensures r.Some? ==> ConfirmCandidate(doc, s, r.value)
    ensures r.Some? ==> forall i :: 0 <= i < r.value ==> !ConfirmCandidate(doc, s, i)
    ensures r.None? ==> forall i :: !ConfirmCandidate(doc, s, i)
  {
    var sel := ConfirmSelectors[s];
    var i := 0;
    while i < |doc|
      invariant 0 <= i <= |doc|
      invariant forall i' :: 0 <= i' < i ==> !ConfirmCandidate(doc, s, i')
    {
      if Matches(sel, doc[i]) && ConfirmLabel(doc[i]) {
        return Some(i);
      }
      i := i + 1;
    }
    return None;
  }

  /**
   * `clickConfirmSkip`'s search: the first candidate in selector order, and
   * within one selector in document order, as (selector, element position);
   * `None` when there is none. The caller activates the element found.
   */
  method FindConfirmButton(doc: Document) returns (r: Option<(nat, nat)>)
    ensures r.Some? ==> ConfirmCandidate(doc, r.value.0, r.value.1)
    ensures r.Some? ==> forall s, i :: ConfirmCandidate(doc, s, i) ==>
      r.value.0 < s || (r.value.0 == s && r.value.1 <= i)
    ensures r.None? <==> forall s, i :: !ConfirmCandidate(doc, s, i)
  {
    var s := 0;
    while s < |ConfirmSelectors|
      invariant 0 <= s <= |ConfirmSelectors|
      invariant forall s', i :: s' < s ==> !ConfirmCandidate(doc, s', i)
    {
      var found := FindInSelector(doc, s);
      if found.Some? {
        return Some((s, found.value));
      }
      s := s + 1;
    }
    return None;
  }

  /** Trimming is immaterial to the confirm label: only the lower-cased text counts. */
  lemma ConfirmLabelIgnoresTrim(e: Element)
    ensures ConfirmLabel(e) <==> Contains(Lower(e.text), "yes") && Contains(Lower(e.text), "skip")
  {
    ContainsTrim(Lower(e.text), "yes");
    ContainsTrim(Lower(e.text), "skip");
  }

  /**
   * The last selector, plain `button`, subsumes the three before it: a
   * confirm button is found exactly when some button, or some element marked
   * `data-test-id="skip-confirm-button"`, has a confirm label.
   */
  lemma ConfirmFoundIff(doc: Document)
    ensures (exists s, i :: ConfirmCandidate(doc, s, i)) <==>
      exists i :: 0 <= i < |doc| && ConfirmLabel(doc[i]) &&
        (doc[i].tag == "button" || Matches(ConfirmSelectors[0], doc[i]))
  {
    if exists s, i :: ConfirmCandidate(doc, s, i) {
      var s, i :| ConfirmCandidate(doc, s, i);
      assert doc[i].tag == "button" || Matches(ConfirmSelectors[0], doc[i]);
    }
    if exists i :: 0 <= i < |doc| && ConfirmLabel(doc[i]) &&
        (doc[i].tag == "button" || Matches(ConfirmSelectors[0], doc[i])) {
      var i :| 0 <= i < |doc| && ConfirmLabel(doc[i]) &&
        (doc[i].tag == "button" || Matches(ConfirmSelectors[0], doc[i]));
      if doc[i].tag == "button" {
        assert ConfirmCandidate(doc, 4, i);
      } else {
        assert ConfirmCandidate(doc, 0, i);
      }
    }
  }

  // ---------------------------------------------------------------------------
  // The mutation filter (content.js:304-329)

  /** A node added to the page: whether it is an element, the element itself and its descendants. */
  datatype AddedNode = AddedNode(isElement: bool, node: Element, descendants: Document)

  /** One mutation record, reduced to its added nodes. */
  datatype Mutation = Mutation(addedNodes: seq<AddedNode>)

  /** The four markers the observer watches for, on the node itself or below it. */
  const WatchedSelectors: seq<Selector> := [
    HasClass("perseus-renderer"),
    AttrIs("data-test-id", "question-area"),
    HasClass("exercise-wrapper"),
    HasClass("sat-section-instructions")
  ]

  /** An element node that is, or contains, one of the watched markers. */
  predicate QuestionContent(n: AddedNode) {
    n.isElement &&
    exists k | 0 <= k < |WatchedSelectors| ::
      Matches(WatchedSelectors[k], n.node) || QuerySelector(n.descendants, WatchedSelectors[k]).Some?
  }

  /** Some mutation of the batch added question content. */
  ghost predicate SignificantBatch(mutations: seq<Mutation>) {
    exists m, k :: 0 <= m < |mutations| && 0 <= k < |mutations[m].addedNodes| &&
      QuestionContent(mutations[m].addedNodes[k])
  }

  /** The observer's scan of a batch, stopping at the first node of question content. */
  method SignificantChange(mutations: seq<Mutation>) returns (significant: bool)
    ensures significant <==> SignificantBatch(mutations)
  {
    significant := false;
    var m := 0;
    while m < |mutations|
      invariant 0 <= m <= |mutations|
      invariant !significant
      invariant forall m', k :: 0 <= m' < m && 0 <= k < |mutations[m'].addedNodes| ==>
        !QuestionContent(mutations[m'].addedNodes[k])
    {
      var nodes := mutations[m].addedNodes;
      var k := 0;
      while k < |nodes|
        invariant 0 <= k <= |nodes|
        invariant forall k' :: 0 <= k' < k ==> !QuestionContent(nodes[k'])
      {
        if QuestionContent(nodes[k]) {
          significant := true;
          return;
        }
        k := k + 1;
      }
      m := m + 1;
    }
  }

  // ---------------------------------------------------------------------------
  // The click classifier (content.js:349-395)

  /**
   * The button (`closest('button')`) a click landed in: its `textContent`, its
   * `aria-label`, and the `textContent` of the enclosing `[role="dialog"]` and
   * `[data-test-id="modal-content"]`, each `None` when absent.
   */
  datatype ClickedButton = ClickedButton(
    text: string,
    ariaLabel: Option<string>,
    dialogText: Option<string>,
    modalText: Option<string>)

  datatype ClickKind = StartClick | NextClick | OtherClick

  function LowerOr(o: Option<string>): string {
    if o.Some? then Lower(o.value) else ""
  }

  function ButtonText(b: ClickedButton): string {
    Trim(Lower(b.text))
  }

  predicate IsStartButton(b: ClickedButton) {
    var t := ButtonText(b);
    var dialog := LowerOr(b.dialogText);
    var modal := LowerOr(b.modalText);
    Contains(t, "let's go") || Contains(t, "let's start") || t == "go" ||
    Contains(dialog, "let's go") || Contains(modal, "let's go") ||
    Contains(t, "start") || Contains(dialog, "start the section") || Contains(modal, "start the section")
  }

  predicate IsNextButton(b: ClickedButton) {
    var t := ButtonText(b);
    Contains(t, "next") || Contains(t, "check") || Contains(LowerOr(b.ariaLabel), "next")
  }

  /** Start-like buttons win over next-like ones; a click outside any button is ignored. */
  function Classify(target: Option<ClickedButton>): (k: ClickKind)
    ensures k == StartClick <==> target.Some? && IsStartButton(target.value)
    ensures k == NextClick <==> target.Some? && !IsStartButton(target.value) && IsNextButton(target.value)
  {
    if target.None? then OtherClick
    else if IsStartButton(target.value) then StartClick
    else if IsNextButton(target.value) then NextClick
    else OtherClick
  }

  /**
   * The start keywords overlap: any button text containing "let's start"
   * already contains "start", so that test never decides a classification.
   */
  lemma LetsStartSubsumed(b: ClickedButton)
    requires Contains(ButtonText(b), "let's start")
    ensures Contains(ButtonText(b), "start")
  {
    assert "let's start"[6..11] == "start";
    ContainsPart(ButtonText(b), "let's start", 6, 11);
  }

  /**
   * The button-text tests read the trimmed text, so padding a button's
   * text with white space, on either side or both, never changes how a click
   * is classified.
   */
  lemma ClassifyIgnoresPadding(b: ClickedButton, before: string, after: string)
    requires forall i :: 0 <= i < |before| ==> IsSpace(before[i])
    requires forall i :: 0 <= i < |after| ==> IsSpace(after[i])
    ensures Classify(Some(b.(text := before + b.text + after))) == Classify(Some(b))
  {
    var b' := b.(text := before + b.text + after);
    assert Lower(b'.text) == Lower(before) + Lower(b.text) + Lower(after);
    assert forall i :: 0 <= i < |before| ==> Lower(before)[i] == before[i];
    assert forall i :: 0 <= i < |after| ==> Lower(after)[i] == after[i];
    TrimPadding(Lower(before), Lower(b.text), Lower(after));
    assert ButtonText(b') == ButtonText(b);
  }

  lemma TrimPadding(before: string, s: string, after: string)
    requires forall i :: 0 <= i < |before| ==> IsSpace(before[i])
    requires forall i :: 0 <= i < |after| ==> IsSpace(after[i])
    ensures Trim(before + s + after) == Trim(s)
  {
    assert before + s + after == before + (s + after);
    TrimStartPad(before, s + after);
    TrimStartSuffix(s, after);
    if TrimStart(s) != [] {
      TrimEndPad(TrimStart(s), after);
    }
  }

  lemma {:induction false} TrimStartPad(pad: string, s: string)
    requires forall i :: 0 <= i < |pad| ==> IsSpace(pad[i])
    ensures TrimStart(pad + s) == TrimStart(s)
    decreases |pad|
  {
    if |pad| > 0 {
      assert (pad + s)[1..] == pad[1..] + s;
      TrimStartPad(pad[1..], s);
    } else {
      assert pad + s == s;
    }
  }

  lemma {:induction false} TrimStartSuffix(s: string, pad: string)
    requires forall i :: 0 <= i < |pad| ==> IsSpace(pad[i])
    ensures TrimStart(s + pad) == if TrimStart(s) == [] then [] else TrimStart(s) + pad
    decreases |s|
  {
    if |s| == 0 {
      assert s + pad == pad + [];
      TrimStartPad(pad, []);
    } else if IsSpace(s[0]) {
      assert (s + pad)[1..] == s[1..] + pad;
      TrimStartSuffix(s[1..], pad);
    }
  }

  lemma {:induction false} TrimEndPad(s: string, pad: string)
    requires forall i :: 0 <= i < |pad| ==> IsSpace(pad[i])
    ensures TrimEnd(s + pad) == TrimEnd(s)
    decreases |pad|
  {
    if |pad| > 0 {
      var p := pad[..|pad| - 1];
      assert (s + pad)[|s + pad| - 1] == pad[|pad| - 1];
      assert (s + pad)[..|s + pad| - 1] == s + p;
      TrimEndPad(s, p);
    } else {
      assert s + pad == s;
    }
  }
}
