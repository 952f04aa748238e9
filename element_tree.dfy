/**
 * The part of an already-parsed XML element tree that record extraction
 * looks at: each element's tag, its text and its child elements, and the
 * three ways of searching a tree that extraction uses (first direct child
 * with a tag, pre-order iteration, and every descendant with a tag).
 */
module ElementTree {
  import opened Wrappers

  /** An element: its tag, its text (`None` when it has none) and its children in document order. */
  datatype Element = Element(tag: string, text: Option<string>, children: seq<Element>)

  /** The first element of `cs` whose tag is `tag`, if any. */
  function FindIn(cs: seq<Element>, tag: string): (r: Option<Element>)
    ensures r.None? <==> (forall i :: 0 <= i < |cs| ==> cs[i].tag != tag)
    ensures forall i :: 0 <= i < |cs| && cs[i].tag == tag &&
                        (forall j :: 0 <= j < i ==> cs[j].tag != tag)
                        ==> r == Some(cs[i])
  {
    if cs == [] then None
    else if cs[0].tag == tag then Some(cs[0])
    else
      var r := FindIn(cs[1..], tag);
      assert forall i :: 1 <= i < |cs| ==> cs[i] == cs[1..][i - 1];
      r
  }

  /** Some element of `cs` has tag `tag`, so there is a first one. */
  lemma {:induction false} FirstWithTag(cs: seq<Element>, tag: string) returns (i: nat)
    requires exists k :: 0 <= k < |cs| && cs[k].tag == tag
    ensures i < |cs| && cs[i].tag == tag && forall j :: 0 <= j < i ==> cs[j].tag != tag
  {
    if cs[0].tag == tag {
      i := 0;
    } else {
      var k :| 0 <= k < |cs| && cs[k].tag == tag;
      assert cs[1..][k - 1].tag == tag;
      var i' := FirstWithTag(cs[1..], tag);
      i := i' + 1;
    }
  }

  /** `e.find(tag)` for a plain tag name: the first direct child of `e` with that tag. */
  function Find(e: Element, tag: string): (r: Option<Element>)
    ensures r.None? <==> (forall i :: 0 <= i < |e.children| ==> e.children[i].tag != tag)
    ensures forall i :: 0 <= i < |e.children| && e.children[i].tag == tag &&
                        (forall j :: 0 <= j < i ==> e.children[j].tag != tag)
                        ==> r == Some(e.children[i])
  {
    FindIn(e.children, tag)
  }

  /** `e.iter()`: `e` itself followed by all its descendants, in pre-order (document order). */
  function Iter(e: Element): (r: seq<Element>)
    ensures |r| >= 1 && r[0] == e
    decreases e
  {
    [e] + IterAll(e.children)
  }

  /** The pre-order iterations of `cs`, one after the other. */
  function IterAll(cs: seq<Element>): seq<Element>
    decreases cs
  {
    if cs == [] then [] else Iter(cs[0]) + IterAll(cs[1..])
  }

  /** The elements of `s` whose tag is `tag`, in the order of `s`. */
  function WithTag(s: seq<Element>, tag: string): (r: seq<Element>)
    ensures |r| <= |s|
    ensures forall i :: 0 <= i < |r| ==> r[i].tag == tag
    ensures forall x :: x in r <==> x in s && x.tag == tag
  {
    if s == [] then []
    else (if s[0].tag == tag then [s[0]] else []) + WithTag(s[1..], tag)
  }

  /**
   * `root.findall('.//' + tag)` for a plain tag name (no wildcards): pre-order iteration of `root` restricted to
   * `tag`, with `root` itself left out (the descendant step of the path
   * selects only elements strictly beneath the context element).
   */
  function FindAllBeneath(root: Element, tag: string): seq<Element>
  {
    WithTag(Iter(root)[1..], tag)
  }

  /** Independent reference: how many elements strictly beneath `e` have tag `tag`. */
  function CountBeneath(e: Element, tag: string): nat
    decreases e
  {
    CountIn(e.children, tag)
  }

  /** How many elements of `cs`, or beneath them, have tag `tag`. */
  function CountIn(cs: seq<Element>, tag: string): nat
    decreases cs
  {
    if cs == [] then 0
    else (if cs[0].tag == tag then 1 else 0) + CountBeneath(cs[0], tag) + CountIn(cs[1..], tag)
  }

  lemma {:induction false} WithTagAppend(a: seq<Element>, b: seq<Element>, tag: string)
    ensures WithTag(a + b, tag) == WithTag(a, tag) + WithTag(b, tag)
  {
    if a == [] {
      assert a + b == b;
    } else {
      assert (a + b)[1..] == a[1..] + b;
      WithTagAppend(a[1..], b, tag);
    }
  }

  /** The elements in pre-order beneath `cs` with tag `tag` are exactly as many as `CountIn` says. */
  lemma {:induction false} IterAllCount(cs: seq<Element>, tag: string)
    ensures |WithTag(IterAll(cs), tag)| == CountIn(cs, tag)
    decreases cs
  {
    if cs != [] {
      var c := cs[0];
      assert Iter(c) == [c] + IterAll(c.children);
      WithTagAppend(Iter(c), IterAll(cs[1..]), tag);
      WithTagAppend([c], IterAll(c.children), tag);
      IterAllCount(c.children, tag);
      IterAllCount(cs[1..], tag);
    }
  }

  /** `findall` returns one element per element with that tag strictly beneath the root, nested ones included. */
  lemma FindAllCount(root: Element, tag: string)
    ensures |FindAllBeneath(root, tag)| == CountBeneath(root, tag)
  {
    assert Iter(root)[1..] == IterAll(root.children);
    IterAllCount(root.children, tag);
  }

  /** `findall` finds nothing exactly when no element strictly beneath the root has the tag. */
  lemma FindAllEmpty(root: Element, tag: string)
    ensures FindAllBeneath(root, tag) == [] <==>
              (forall k :: 1 <= k < |Iter(root)| ==> Iter(root)[k].tag != tag)
  {
    var s := Iter(root)[1..];
    forall k | 1 <= k < |Iter(root)| ensures Iter(root)[k] in s {
      assert Iter(root)[k] == s[k - 1];
    }
    if FindAllBeneath(root, tag) != [] {
      var x := FindAllBeneath(root, tag)[0];
      assert x in s;
      var k :| 0 <= k < |s| && s[k] == x;
      assert Iter(root)[k + 1] == x;
    }
  }

  /**
   * Document order: the matches beneath an element whose first child is `c`
   * are `c` itself (if it matches), then the matches nested inside `c`, then
   * the matches beneath the later children.
   */
  lemma FindAllFirstChild(e: Element, tag: string)
    requires e.children != []
    ensures var c := e.children[0];
            FindAllBeneath(e, tag) ==
              (if c.tag == tag then [c] else []) + FindAllBeneath(c, tag) +
              FindAllBeneath(Element(e.tag, e.text, e.children[1..]), tag)
  {
    var c := e.children[0];
    var rest := Element(e.tag, e.text, e.children[1..]);
    assert Iter(e)[1..] == Iter(c) + IterAll(rest.children);
    assert Iter(rest)[1..] == IterAll(rest.children);
    assert Iter(c) == [c] + Iter(c)[1..];
    WithTagAppend(Iter(c), IterAll(rest.children), tag);
    WithTagAppend([c], Iter(c)[1..], tag);
  }

  /** Being beneath is transitive: whatever `Iter(s)` visits, `Iter(e)` visits, when `s` is visited by `Iter(e)`. */
  lemma {:induction false} IterTransitive(e: Element, s: Element, x: Element)
    requires s in Iter(e) && x in Iter(s)
    ensures x in Iter(e)
    decreases e
  {
    if s != e {
      IterAllTransitive(e.children, s, x);
    }
  }

  lemma {:induction false} IterAllTransitive(cs: seq<Element>, s: Element, x: Element)
    requires s in IterAll(cs) && x in Iter(s)
    ensures x in IterAll(cs)
    decreases cs
  {
    if s in Iter(cs[0]) {
      IterTransitive(cs[0], s, x);
    } else {
      IterAllTransitive(cs[1..], s, x);
    }
  }

  /** A match nested beneath another match is also found beneath the root: nested matches each count. */
  lemma NestedFound(root: Element, s: Element, x: Element, tag: string)
    requires s in FindAllBeneath(root, tag) && x in FindAllBeneath(s, tag)
    ensures x in FindAllBeneath(root, tag)
  {
    assert Iter(root)[1..] == IterAll(root.children);
    IterAllTransitive(root.children, s, x);
  }
}
