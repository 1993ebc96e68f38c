/** The part of the DOM the library touches, as values: an element is its
    `class` attribute and its other attributes; a document, a list of
    descendants or a chain of ancestors is a sequence of elements in the
    order the DOM walks them; a CSS selector is one of the few shapes the
    library builds, with the matching rule of the Selectors standard for a
    document in no-quirks mode (class names compare case-sensitively). */
module Dom {
  import opened Results
  import opened Text

  /** `className` is the `class` attribute ("" when absent); `attributes`
      holds every other attribute. */
  datatype Element = Element(className: string, attributes: map<string, string>)

  /** The selector shapes the library writes. */
  datatype Selector =
    | ClassToken(name: string)        // `.name`
    | ClassContains(fragment: string) // `[class*="fragment"]`
    | HasAttribute(attr: string)      // `[attr]`
    | Either(left: Selector, right: Selector) // `left, right`

  /** `name` is one of the whitespace-separated tokens of `cls`, starting at `i`. */
  predicate TokenAt(cls: string, name: string, i: int) {
    && OccursAt(cls, name, i)
    && (i == 0 || IsAsciiWhitespace(cls[i - 1]))
    && (i + |name| == |cls| || IsAsciiWhitespace(cls[i + |name|]))
  }

  predicate HasClassToken(cls: string, name: string) {
    |name| > 0 && exists i | 0 <= i <= |cls| :: TokenAt(cls, name, i)
  }

  /** Selector matching. A class-token match is in particular a substring
      match; an empty fragment never matches, since `[class*=""]` selects
      nothing. */
  predicate Matches(el: Element, sel: Selector)
    ensures Matches(el, sel) && sel.ClassToken? ==> |sel.name| > 0 && Contains(el.className, sel.name)
    ensures sel.ClassContains? && |sel.fragment| == 0 ==> !Matches(el, sel)
  {
    match sel
    case ClassToken(name) => HasClassToken(el.className, name)
    case ClassContains(fragment) => |fragment| > 0 && Contains(el.className, fragment)
    case HasAttribute(attr) => attr in el.attributes
    case Either(left, right) => Matches(el, left) || Matches(el, right)
  }

  /** The selector text the library concatenates. */
  function Render(sel: Selector): string {
    match sel
    case ClassToken(name) => "." + name
    case ClassContains(fragment) => "[class*=\"" + fragment + "\"]"
    case HasAttribute(attr) => "[" + attr + "]"
    case Either(left, right) => Render(left) + ", " + Render(right)
  }

  /** `'.' + name + ', [class*="' + name + '-"]'`: an element whose class
      list holds `name`, or whose class attribute contains `name-` anywhere.
      The library uses this shape for a module's root element, for the
      string form of `$module`'s targets, and for a component. */
  function BlockSelector(name: string): (sel: Selector)
    ensures Render(sel) == "." + name + ", [class*=\"" + name + "-\"]"
  {
    Either(ClassToken(name), ClassContains(name + "-"))
  }

  /** `[class*="-" + option]`: the modifier class of an option. */
  function ModifierSelector(option: string): (sel: Selector)
    ensures Render(sel) == "[class*=\"-" + option + "\"]"
  {
    ClassContains("-" + option)
  }

  /** `i` is the first position of `els` that matches. */
  predicate IsFirstMatch(els: seq<Element>, sel: Selector, i: int) {
    && 0 <= i < |els|
    && Matches(els[i], sel)
    && forall j | 0 <= j < i :: !Matches(els[j], sel)
  }

  /** There is only one first match. */
  lemma FirstMatchUnique(els: seq<Element>, sel: Selector, i: int, j: int)
    requires IsFirstMatch(els, sel, i) && IsFirstMatch(els, sel, j)
    ensures i == j
  {
  }

  function FirstMatchFrom(els: seq<Element>, sel: Selector, i: nat): (r: Option<nat>)
    requires i <= |els|
    ensures r.Some? ==> i <= r.value && IsFirstMatch(els[i..], sel, r.value - i)
    ensures r.None? ==> forall j | i <= j < |els| :: !Matches(els[j], sel)
    decreases |els| - i
  {
    if i == |els| then None
    else if Matches(els[i], sel) then Some(i)
    else
      var r := FirstMatchFrom(els, sel, i + 1);
      assert r.Some? ==> IsFirstMatch(els[i..], sel, r.value - i) by {
        if r.Some? {
          forall j | 0 <= j < r.value - i
            ensures !Matches(els[i..][j], sel)
          {
            if j > 0 {
              assert els[i..][j] == els[i + 1..][j - 1];
            }
          }
        }
      }
      r
  }

  /** `querySelector`: the position of the first element, in walk order,
      that matches; `null` when none does. */
  function QuerySelector(els: seq<Element>, sel: Selector): (r: Option<nat>)
    ensures r.Some? <==> exists i | 0 <= i < |els| :: Matches(els[i], sel)
    ensures r.Some? ==> IsFirstMatch(els, sel, r.value)
  {
    assert els[0..] == els;
    FirstMatchFrom(els, sel, 0)
  }

  /** `querySelector` returning the element itself. */
  function QueryElement(els: seq<Element>, sel: Selector): (r: Option<Element>)
    ensures r.None? <==> forall i | 0 <= i < |els| :: !Matches(els[i], sel)
    ensures r.Some? ==> exists i | 0 <= i < |els| :: IsFirstMatch(els, sel, i) && els[i] == r.value
  {
    match QuerySelector(els, sel)
    case None => None
    case Some(i) => Some(els[i])
  }

  /** `idx` lists, in strictly increasing order, exactly the positions from
      `i` on whose element matches. */
  predicate IsMatchPositions(els: seq<Element>, sel: Selector, i: nat, idx: seq<nat>) {
    && (forall j | 0 <= j < |idx| :: i <= idx[j] < |els| && Matches(els[idx[j]], sel))
    && (forall j, k | 0 <= j < k < |idx| :: idx[j] < idx[k])
    && (forall p | i <= p < |els| && Matches(els[p], sel) :: p in idx)
  }

  /** Whether each element matches, position by position. */
  function MatchFlags(els: seq<Element>, sel: Selector): (flags: seq<bool>)
    ensures |flags| == |els|
    ensures forall k | 0 <= k < |els| :: flags[k] == Matches(els[k], sel)
  {
    seq(|els|, k requires 0 <= k < |els| => Matches(els[k], sel))
  }

  /** The positions from `i` on that hold `true`, in increasing order. */
  function TruePositions(flags: seq<bool>, i: nat): (idx: seq<nat>)
    requires i <= |flags|
    ensures forall j | 0 <= j < |idx| :: i <= idx[j] < |flags|
    decreases |flags| - i
  {
    if i == |flags| then []
    else
      var rest := TruePositions(flags, i + 1);
      if flags[i] then [i] + rest else rest
  }

  lemma {:induction false} TruePositionsHold(flags: seq<bool>, i: nat)
    requires i <= |flags|
    ensures forall j | 0 <= j < |TruePositions(flags, i)| :: flags[TruePositions(flags, i)[j]]
    decreases |flags| - i
  {
    if i < |flags| {
      TruePositionsHold(flags, i + 1);
      var rest := TruePositions(flags, i + 1);
      if flags[i] {
        var idx := [i] + rest;
        assert TruePositions(flags, i) == idx;
        forall j | 0 <= j < |idx|
          ensures flags[idx[j]]
        {
          if j > 0 {
            assert idx[j] == rest[j - 1] && flags[rest[j - 1]];
          }
        }
      } else {
        assert TruePositions(flags, i) == rest;
      }
    }
  }

  lemma {:induction false} TruePositionsIncrease(flags: seq<bool>, i: nat)
    requires i <= |flags|
    ensures forall j, k | 0 <= j < k < |TruePositions(flags, i)| ::
              TruePositions(flags, i)[j] < TruePositions(flags, i)[k]
    decreases |flags| - i
  {
    if i < |flags| && flags[i] {
      TruePositionsIncrease(flags, i + 1);
      var rest := TruePositions(flags, i + 1);
      var idx := [i] + rest;
      assert TruePositions(flags, i) == idx;
      forall j, k | 0 <= j < k < |idx|
        ensures idx[j] < idx[k]
      {
        assert idx[k] == rest[k - 1] && i < rest[k - 1];
        if j > 0 {
          assert idx[j] == rest[j - 1] && rest[j - 1] < rest[k - 1];
        }
      }
    } else if i < |flags| {
      TruePositionsIncrease(flags, i + 1);
      assert TruePositions(flags, i) == TruePositions(flags, i + 1);
    }
  }

  lemma {:induction false} TruePositionsComplete(flags: seq<bool>, i: nat, p: nat)
    requires i <= p < |flags| && flags[p]
    ensures p in TruePositions(flags, i)
    decreases |flags| - i
  {
    var rest := TruePositions(flags, i + 1);
    assert TruePositions(flags, i) == if flags[i] then [i] + rest else rest;
    if i < p {
      TruePositionsComplete(flags, i + 1, p);
    } else {
      assert ([i] + rest)[0] == p;
    }
  }

  /** The matching positions, in walk order. */
  function MatchPositions(els: seq<Element>, sel: Selector): (idx: seq<nat>)
    ensures IsMatchPositions(els, sel, 0, idx)
  {
    var flags := MatchFlags(els, sel);
    var idx := TruePositions(flags, 0);
    TruePositionsHold(flags, 0);
    TruePositionsIncrease(flags, 0);
    assert forall j | 0 <= j < |idx| :: 0 <= idx[j] < |els| && Matches(els[idx[j]], sel) by {
      forall j | 0 <= j < |idx|
        ensures 0 <= idx[j] < |els| && Matches(els[idx[j]], sel)
      {
        assert flags[idx[j]];
      }
    }
    assert forall p | 0 <= p < |els| && Matches(els[p], sel) :: p in idx by {
      forall p | 0 <= p < |els| && Matches(els[p], sel)
        ensures p in idx
      {
        TruePositionsComplete(flags, 0, p);
      }
    }
    idx
  }

  /** The elements at a list of matching positions are exactly the matching
      elements: each one matches, and none is missed. */
  lemma PickedAreMatches(els: seq<Element>, sel: Selector, idx: seq<nat>, r: seq<Element>)
    requires IsMatchPositions(els, sel, 0, idx)
    requires |r| == |idx| && forall j | 0 <= j < |r| :: r[j] == els[idx[j]]
    ensures forall e | e in r :: e in els && Matches(e, sel)
    ensures forall i | 0 <= i < |els| && Matches(els[i], sel) :: els[i] in r
    ensures |r| <= |els|
  {
    forall e | e in r
      ensures e in els && Matches(e, sel)
    {
      var j :| 0 <= j < |r| && r[j] == e;
      assert e == els[idx[j]];
    }
    forall i | 0 <= i < |els| && Matches(els[i], sel)
      ensures els[i] in r
    {
      var j :| 0 <= j < |idx| && idx[j] == i;
      assert r[j] == els[i];
    }
    IndicesBound(idx, |els|);
  }

  /** `querySelectorAll`: the elements at the matching positions, so each
      matching element once, in walk order, and nothing else. */
  function QuerySelectorAll(els: seq<Element>, sel: Selector): (r: seq<Element>)
    ensures |r| == |MatchPositions(els, sel)|
    ensures forall j | 0 <= j < |r| :: r[j] == els[MatchPositions(els, sel)[j]]
    ensures forall e | e in r :: e in els && Matches(e, sel)
    ensures forall i | 0 <= i < |els| && Matches(els[i], sel) :: els[i] in r
    ensures |r| <= |els|
  {
    var idx := MatchPositions(els, sel);
    var r := seq(|idx|, j requires 0 <= j < |idx| => els[idx[j]]);
    PickedAreMatches(els, sel, idx, r);
    r
  }

  /** Strictly increasing positions below `n` number at most `n`. */
  lemma IndicesBound(idx: seq<nat>, n: nat)
    requires forall j | 0 <= j < |idx| :: idx[j] < n
    requires forall j, k | 0 <= j < k < |idx| :: idx[j] < idx[k]
    ensures |idx| <= n
  {
    if |idx| > n {
      IndexAtLeast(idx, n);
    }
  }

  lemma {:induction false} IndexAtLeast(idx: seq<nat>, j: nat)
    requires j < |idx|
    requires forall a, b | 0 <= a < b < |idx| :: idx[a] < idx[b]
    ensures j <= idx[j]
  {
    if j > 0 {
      IndexAtLeast(idx, j - 1);
    }
  }

}
