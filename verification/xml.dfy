/** The part of an ElementTree document the scripts look at: tags, the `name` attribute, text
    content and child order. Everything else an element carries is kept as opaque attributes. */
module Xml {
  import opened Wrappers
  import opened Seqs

  /** One element. `name` is its `name` attribute (absent or present), `attributes` its other
      attributes, `text` its text content and `children` its sub-elements in document order. */
  datatype Element = Element(
    tag: string,
    name: Option<string>,
    text: Option<string>,
    attributes: seq<(string, string)>,
    children: seq<Element>)

  /** The test "this element has tag `tag`", as used by `find` and `findall`. */
  function TagIs(tag: string): Element -> bool {
    (e: Element) => e.tag == tag
  }

  /** The first element of `cs` with tag `tag`. */
  function FindIn(cs: seq<Element>, tag: string): (r: Option<Element>)
    ensures r.None? <==> forall i :: 0 <= i < |cs| ==> cs[i].tag != tag
    ensures r.Some? ==> exists k :: 0 <= k < |cs| && cs[k] == r.value && r.value.tag == tag
                                     && forall j :: 0 <= j < k ==> cs[j].tag != tag
  {
    if cs == [] then None
    else if cs[0].tag == tag then Some(cs[0])
    else
      var r := FindIn(cs[1..], tag);
      assert r.Some? ==> exists k :: 0 <= k < |cs[1..]| && cs[1..][k] == r.value
                                     && forall j :: 0 <= j < k ==> cs[1..][j].tag != tag;
      assert r.Some? ==> exists k :: 0 <= k < |cs| && cs[k] == r.value
                                     && forall j :: 0 <= j < k ==> cs[j].tag != tag by {
        if r.Some? {
          var k :| 0 <= k < |cs[1..]| && cs[1..][k] == r.value
                   && forall j :: 0 <= j < k ==> cs[1..][j].tag != tag;
          assert cs[k + 1] == r.value;
          assert forall j :: 0 <= j < k + 1 ==> cs[j].tag != tag by {
            forall j | 0 < j < k + 1 ensures cs[j].tag != tag {
              assert cs[j] == cs[1..][j - 1];
            }
          }
        }
      }
      r
  }

  /** ElementTree's `e.find(tag)`: the first direct child with that tag, if any. */
  function Find(e: Element, tag: string): Option<Element> {
    FindIn(e.children, tag)
  }

  /** ElementTree's `e.findall(tag)`: the direct children with that tag, in document order. */
  function FindAll(e: Element, tag: string): seq<Element> {
    Filter(TagIs(tag), e.children)
  }

  lemma FindInConcatFirst(a: seq<Element>, b: seq<Element>, tag: string)
    requires exists i :: 0 <= i < |a| && a[i].tag == tag
    ensures FindIn(a + b, tag) == FindIn(a, tag)
  {
    if a[0].tag != tag {
      assert (a + b)[1..] == a[1..] + b;
      var i :| 0 <= i < |a| && a[i].tag == tag;
      assert a[1..][i - 1].tag == tag;
      FindInConcatFirst(a[1..], b, tag);
    }
  }

  lemma FindInConcatSkip(a: seq<Element>, b: seq<Element>, tag: string)
    requires forall i :: 0 <= i < |a| ==> a[i].tag != tag
    ensures FindIn(a + b, tag) == FindIn(b, tag)
  {
    if a != [] {
      assert (a + b)[1..] == a[1..] + b;
      FindInConcatSkip(a[1..], b, tag);
    } else {
      assert a + b == b;
    }
  }
}
