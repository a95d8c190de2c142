/**
  The part of an XML element tree that the event-file parser reads: each element
  has a tag, an optional text (None when the element has no character data before
  its first child) and its children in document order. The two lookups are the
  ones the parser calls with bare tag names: `Find` (first direct child with a tag)
  and `FindAll` (every direct child with a tag, in document order).
*/
module ElementTree {

  datatype Option<+T> = None | Some(value: T)

  datatype Element = Element(tag: string, text: Option<string>, children: seq<Element>)

  /** The first element of `cs` whose tag is `tag`, if any. */
  function First(cs: seq<Element>, tag: string): (r: Option<Element>)
    ensures r.None? <==> forall i :: 0 <= i < |cs| ==> cs[i].tag != tag
    ensures r.Some? ==> r.value.tag == tag
  {
    if cs == [] then None
    else if cs[0].tag == tag then Some(cs[0])
    else First(cs[1..], tag)
  }

  /** The elements of `cs` whose tag is `tag`, in their order in `cs`. */
  function Matching(cs: seq<Element>, tag: string): (r: seq<Element>)
    ensures |r| <= |cs|
    ensures forall i :: 0 <= i < |r| ==> r[i].tag == tag
  {
    if cs == [] then []
    else (if cs[0].tag == tag then [cs[0]] else []) + Matching(cs[1..], tag)
  }

  /** ElementTree's `find(tag)`: the first direct child of `e` with that tag. */
  function Find(e: Element, tag: string): Option<Element>
  {
    First(e.children, tag)
  }

  /** ElementTree's `findall(tag)`: the direct children of `e` with that tag, in document order. */
  function FindAll(e: Element, tag: string): seq<Element>
  {
    Matching(e.children, tag)
  }

  /** What `First` picks is an element of `cs`. */
  lemma {:induction false} FirstIsMember(cs: seq<Element>, tag: string)
    ensures First(cs, tag).Some? ==> First(cs, tag).value in cs
  {
    if cs != [] && cs[0].tag != tag {
      FirstIsMember(cs[1..], tag);
    }
  }

  /** Only elements of `cs` are selected. */
  lemma {:induction false} MatchingSound(cs: seq<Element>, tag: string)
    ensures forall c :: c in Matching(cs, tag) ==> c in cs
  {
    if cs != [] {
      MatchingSound(cs[1..], tag);
    }
  }

  /** Every element of `cs` that carries the tag is selected. */
  lemma {:induction false} MatchingComplete(cs: seq<Element>, tag: string, i: nat)
    requires i < |cs| && cs[i].tag == tag
    ensures cs[i] in Matching(cs, tag)
  {
    if i > 0 {
      MatchingComplete(cs[1..], tag, i - 1);
    }
  }

  /** Selecting by tag distributes over concatenation: document order is kept. */
  lemma {:induction false} MatchingAppend(a: seq<Element>, b: seq<Element>, tag: string)
    ensures Matching(a + b, tag) == Matching(a, tag) + Matching(b, tag)
  {
    if a == [] {
      assert a + b == b;
    } else {
      assert (a + b)[1..] == a[1..] + b;
      MatchingAppend(a[1..], b, tag);
    }
  }

  /** `find` returns the head of what `findall` returns, and nothing when that is empty. */
  lemma {:induction false} FirstIsHeadOfMatching(cs: seq<Element>, tag: string)
    ensures First(cs, tag) == if Matching(cs, tag) == [] then None else Some(Matching(cs, tag)[0])
  {
    if cs != [] && cs[0].tag != tag {
      FirstIsHeadOfMatching(cs[1..], tag);
    }
  }

  /** The element `First` picks is the one at the first index carrying the tag. */
  lemma {:induction false} FirstIsFirstMatch(cs: seq<Element>, tag: string, i: nat)
    requires i < |cs| && cs[i].tag == tag
    requires forall j :: 0 <= j < i ==> cs[j].tag != tag
    ensures First(cs, tag) == Some(cs[i])
  {
    if i > 0 {
      assert cs[0].tag != tag;
      FirstIsFirstMatch(cs[1..], tag, i - 1);
    }
  }

  /** `find` picks exactly the first child that carries the tag. */
  lemma FindFirstChild(e: Element, tag: string, i: nat)
    requires i < |e.children| && e.children[i].tag == tag
    requires forall j :: 0 <= j < i ==> e.children[j].tag != tag
    ensures Find(e, tag) == Some(e.children[i])
  {
    FirstIsFirstMatch(e.children, tag, i);
  }

  lemma FindIsHeadOfFindAll(e: Element, tag: string)
    ensures Find(e, tag) == if FindAll(e, tag) == [] then None else Some(FindAll(e, tag)[0])
  {
    FirstIsHeadOfMatching(e.children, tag);
  }
}
