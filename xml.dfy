/**
 * Reading XML: the choice of a decompressing opener, the stream of elements
 * `iterparse_xml` produces, the filtered stream of `iter_extract_elems` with
 * its `root.clear()` calls, and the member filter of `yield_etrees_from_zip`.
 *
 * A document is an element tree; the parser is its sequence of start and end
 * events. Elements are values, so an element stands for the subtree it roots.
 */
module Xml {
  import opened Wrappers

  // ---------------------------------------------------------------------------
  // Choosing the opener

  /** `_encoding_to_module`: the module whose `open` reads each compressed encoding. */
  const EncodingToModule: map<string, string> := map["gzip" := "gzip", "bzip2" := "bz2", "xz" := "lzma"]

  /** The built-in `open`, or the `open` of a decompression module. */
  datatype Opener = BuiltinOpen | ModuleOpen(moduleName: string)

  /**
   * The opener for the encoding `mimetypes.guess_type` reports: no encoding
   * opens the file as it is; an encoding missing from the table raises KeyError.
   */
  function SelectOpener(encoding: Option<string>): (r: Result<Opener, PyError>)
    ensures encoding.None? ==> r == Ok(BuiltinOpen)
    ensures r.Err? <==> encoding.Some? && encoding.value !in EncodingToModule
    ensures r.Err? ==> r.error == KeyError
    ensures r.Ok? && encoding.Some? ==> r.value.ModuleOpen? && r.value.moduleName == EncodingToModule[encoding.value]
  {
    match encoding
    case None => Ok(BuiltinOpen)
    case Some(e) => if e in EncodingToModule then Ok(ModuleOpen(EncodingToModule[e])) else Err(KeyError)
  }

  /**
   * The three compressed encodings open through gzip, bz2 and lzma, and
   * `compress` (what `mimetypes` reports for a `.Z` file) is not in the table.
   */
  lemma SelectOpenerCases()
    ensures SelectOpener(Some("gzip")) == Ok(ModuleOpen("gzip"))
    ensures SelectOpener(Some("bzip2")) == Ok(ModuleOpen("bz2"))
    ensures SelectOpener(Some("xz")) == Ok(ModuleOpen("lzma"))
    ensures SelectOpener(Some("compress")) == Err(KeyError)
  {
    assert "compress" !in EncodingToModule by {
      assert "compress" != "gzip" && "compress" != "bzip2" && "compress" != "xz";
    }
  }

  /** Different encodings are read by different modules. */
  lemma SelectOpenerInjective(a: string, b: string)
    requires SelectOpener(Some(a)).Ok? && SelectOpener(Some(a)) == SelectOpener(Some(b))
    ensures a == b
  {
    assert a == "gzip" || a == "bzip2" || a == "xz";
    assert b == "gzip" || b == "bzip2" || b == "xz";
  }

  // ---------------------------------------------------------------------------
  // Documents and their parse events

  datatype Element = Element(tag: string, children: seq<Element>)

  /** An `iterparse` event with `events=('start', 'end')`. */
  datatype Event = Start(elem: Element) | End(elem: Element)

  /** The events of a well-formed document: an element starts, its children follow, then it ends. */
  function Events(e: Element): (evs: seq<Event>)
    ensures |evs| >= 2 && evs[0] == Start(e) && evs[|evs| - 1] == End(e)
    decreases e, 1
  {
    [Start(e)] + ChildEvents(e.children) + [End(e)]
  }

  function ChildEvents(cs: seq<Element>): seq<Event>
    decreases cs, 0
  {
    if cs == [] then [] else Events(cs[0]) + ChildEvents(cs[1..])
  }

  /** The elements in the order their end tags close: children before their parent. */
  function PostOrder(e: Element): (es: seq<Element>)
    ensures es != [] && es[|es| - 1] == e
    decreases e, 1
  {
    ChildPostOrder(e.children) + [e]
  }

  function ChildPostOrder(cs: seq<Element>): seq<Element>
    decreases cs, 0
  {
    if cs == [] then [] else PostOrder(cs[0]) + ChildPostOrder(cs[1..])
  }

  /** The elements of the end events, in order. */
  function Ends(evs: seq<Event>): (es: seq<Element>)
    ensures |es| <= |evs|
  {
    if evs == [] then []
    else Ends(evs[..|evs| - 1]) + (if evs[|evs| - 1].End? then [evs[|evs| - 1].elem] else [])
  }

  lemma EndsStep(evs: seq<Event>, lo: nat, i: nat)
    requires lo <= i < |evs|
    ensures Ends(evs[lo..i + 1]) == Ends(evs[lo..i]) + (if evs[i].End? then [evs[i].elem] else [])
  {
    assert evs[lo..i + 1][..i - lo] == evs[lo..i];
  }

  lemma {:induction false} EndsAppend(a: seq<Event>, b: seq<Event>)
    ensures Ends(a + b) == Ends(a) + Ends(b)
    decreases |b|
  {
    if b == [] {
      assert a + b == a;
    } else {
      assert (a + b)[..|a + b| - 1] == a + b[..|b| - 1];
      EndsAppend(a, b[..|b| - 1]);
    }
  }

  /** The end events of a document close its elements in post-order. */
  lemma {:induction false} EndsOfEvents(e: Element)
    ensures Ends(Events(e)) == PostOrder(e)
    decreases e, 1
  {
    EndsOfChildEvents(e.children);
    EndsAppend([Start(e)], ChildEvents(e.children));
    EndsAppend([Start(e)] + ChildEvents(e.children), [End(e)]);
    assert Ends([Start(e)]) == [] by {
      assert [Start(e)][..0] == [];
    }
    assert Ends([End(e)]) == [e] by {
      assert [End(e)][..0] == [];
    }
  }

  lemma {:induction false} EndsOfChildEvents(cs: seq<Element>)
    ensures Ends(ChildEvents(cs)) == ChildPostOrder(cs)
    decreases cs, 0
  {
    if cs != [] {
      EndsOfEvents(cs[0]);
      EndsOfChildEvents(cs[1..]);
      EndsAppend(Events(cs[0]), ChildEvents(cs[1..]));
    }
  }

  // ---------------------------------------------------------------------------
  // iterparse_xml

  /**
   * `iterparse_xml`: the element of the first event (the root's start), then
   * the element of every end event after it.
   */
  method IterparseXml(root: Element) returns (stream: seq<Element>)
    ensures stream == [root] + PostOrder(root)
  {
    var events := Events(root);
    stream := [events[0].elem];
    for i := 1 to |events|
      invariant stream == [root] + Ends(events[1..i])
    {
      EndsStep(events, 1, i);
      if events[i].End? {
        stream := stream + [events[i].elem];
      }
    }
    var rest := events[1..|events|];
    assert events == [events[0]] + rest;
    EndsAppend([events[0]], rest);
    assert Ends([events[0]]) == [] by {
      assert [events[0]][..0] == [];
    }
    EndsOfEvents(root);
    assert Ends(rest) == PostOrder(root);
  }

  // ---------------------------------------------------------------------------
  // iter_extract_elems

  /** What the consumer of `iter_extract_elems` observes: an element handed out, or the root cleared. */
  datatype Action = Yield(elem: Element) | ClearRoot

  /** The elements of `es` with tag `tag`, in order. */
  function Matching(es: seq<Element>, tag: string): seq<Element> {
    if es == [] then []
    else Matching(es[..|es| - 1], tag) + (if es[|es| - 1].tag == tag then [es[|es| - 1]] else [])
  }

  lemma ExtractLogStep(es: seq<Element>, lo: nat, i: nat, tag: string)
    requires lo <= i < |es|
    ensures ExtractLog(es[lo..i + 1], tag)
            == ExtractLog(es[lo..i], tag) + (if es[i].tag == tag then [Yield(es[i]), ClearRoot] else [])
  {
    assert es[lo..i + 1][..i - lo] == es[lo..i];
  }

  /** Each matching element is yielded and the root cleared once the consumer resumes. */
  function ExtractLog(es: seq<Element>, tag: string): seq<Action> {
    if es == [] then []
    else ExtractLog(es[..|es| - 1], tag) + (if es[|es| - 1].tag == tag then [Yield(es[|es| - 1]), ClearRoot] else [])
  }

  /**
   * `iter_extract_elems`, consumed to the end: after the root, every element
   * of the stream with tag `tag` is yielded, each followed by `root.clear()`,
   * and the root is cleared once more when the stream ends.
   */
  method IterExtractElems(root: Element, tag: string) returns (log: seq<Action>)
    ensures log == ExtractLog(PostOrder(root), tag) + [ClearRoot]
  {
    var stream := IterparseXml(root);
    log := [];
    for i := 1 to |stream|
      invariant log == ExtractLog(stream[1..i], tag)
    {
      ExtractLogStep(stream, 1, i, tag);
      var elem := stream[i];
      if elem.tag != tag {
        continue;
      }
      log := log + [Yield(elem), ClearRoot];
    }
    assert stream[1..|stream|] == PostOrder(root);
    log := log + [ClearRoot];
  }

  /** An element is kept exactly when it is in the stream and has the tag. */
  lemma {:induction false} MatchingMembers(es: seq<Element>, tag: string)
    ensures forall x :: x in Matching(es, tag) <==> x in es && x.tag == tag
    decreases |es|
  {
    if es != [] {
      MatchingMembers(es[..|es| - 1], tag);
      assert es == es[..|es| - 1] + [es[|es| - 1]];
    }
  }

  /** Filtering keeps the order: it distributes over concatenation. */
  lemma {:induction false} MatchingAppend(a: seq<Element>, b: seq<Element>, tag: string)
    ensures Matching(a + b, tag) == Matching(a, tag) + Matching(b, tag)
    decreases |b|
  {
    if b == [] {
      assert a + b == a;
    } else {
      assert (a + b)[..|a + b| - 1] == a + b[..|b| - 1];
      MatchingAppend(a, b[..|b| - 1], tag);
    }
  }

  /**
   * The log alternates: the k-th matching element is yielded at position
   * `2k` and the root is cleared right after it.
   */
  lemma {:induction false} ExtractLogShape(es: seq<Element>, tag: string)
    ensures |ExtractLog(es, tag)| == 2 * |Matching(es, tag)|
    ensures forall k :: 0 <= k < |Matching(es, tag)| ==>
              ExtractLog(es, tag)[2 * k] == Yield(Matching(es, tag)[k]) && ExtractLog(es, tag)[2 * k + 1] == ClearRoot
    decreases |es|
  {
    if es != [] {
      ExtractLogShape(es[..|es| - 1], tag);
    }
  }

  /** When the root itself has the tag, it is the last element yielded. */
  lemma RootYieldedLast(root: Element, tag: string)
    requires root.tag == tag
    ensures var m := Matching(PostOrder(root), tag); m != [] && m[|m| - 1] == root
  {
    var es := PostOrder(root);
    assert es[..|es| - 1] + [es[|es| - 1]] == es;
  }

  /** A child's elements, and so its matches, all come before its parent. */
  lemma {:induction false} ChildPostOrderSplit(cs: seq<Element>, k: nat)
    requires k < |cs|
    ensures ChildPostOrder(cs) == ChildPostOrder(cs[..k]) + PostOrder(cs[k]) + ChildPostOrder(cs[k + 1..])
    decreases k
  {
    if k == 0 {
      assert cs[..0] == [];
    } else {
      ChildPostOrderSplit(cs[1..], k - 1);
      assert cs[1..][..k - 1] == cs[1..k] && cs[1..][k - 1] == cs[k] && cs[1..][k..] == cs[k + 1..];
      assert cs[..k][1..] == cs[1..k];
      assert ChildPostOrder(cs[..k]) == PostOrder(cs[0]) + ChildPostOrder(cs[1..k]);
    }
  }

  /** Nested matches come inner first: a child's matches appear before its parent's own entry. */
  lemma InnerBeforeOuter(e: Element, k: nat, tag: string)
    requires k < |e.children|
    ensures exists pre, post :: Matching(PostOrder(e), tag)
              == pre + Matching(PostOrder(e.children[k]), tag) + post + Matching([e], tag)
  {
    var cs := e.children;
    ChildPostOrderSplit(cs, k);
    var pre := ChildPostOrder(cs[..k]);
    var post := ChildPostOrder(cs[k + 1..]);
    assert PostOrder(e) == pre + PostOrder(cs[k]) + post + [e];
    MatchingAppend(pre + PostOrder(cs[k]) + post, [e], tag);
    MatchingAppend(pre + PostOrder(cs[k]), post, tag);
    MatchingAppend(pre, PostOrder(cs[k]), tag);
    assert Matching(PostOrder(e), tag)
        == Matching(pre, tag) + Matching(PostOrder(cs[k]), tag) + Matching(post, tag) + Matching([e], tag);
  }

  // ---------------------------------------------------------------------------
  // yield_etrees_from_zip

  predicate EndsWith(s: string, suffix: string) {
    |suffix| <= |s| && s[|s| - |suffix|..] == suffix
  }

  /** The member names ending in `.xml`, in `namelist` order. */
  function XmlMembers(names: seq<string>): seq<string> {
    if names == [] then []
    else XmlMembers(names[..|names| - 1]) + (if EndsWith(names[|names| - 1], ".xml") then [names[|names| - 1]] else [])
  }

  /**
   * `yield_etrees_from_zip`: each member whose name ends in `.xml`, paired
   * with the tree `parse` builds from it; other members are not opened.
   */
  method YieldEtreesFromZip(names: seq<string>, parse: string -> Element) returns (trees: seq<(string, Element)>)
    ensures |trees| == |XmlMembers(names)|
    ensures forall k :: 0 <= k < |trees| ==> trees[k] == (XmlMembers(names)[k], parse(XmlMembers(names)[k]))
  {
    trees := [];
    for i := 0 to |names|
      invariant |trees| == |XmlMembers(names[..i])|
      invariant forall k :: 0 <= k < |trees| ==> trees[k] == (XmlMembers(names[..i])[k], parse(XmlMembers(names[..i])[k]))
    {
      assert names[..i + 1][..i] == names[..i];
      var name := names[i];
      if !EndsWith(name, ".xml") {
        continue;
      }
      trees := trees + [(name, parse(name))];
    }
    assert names[..|names|] == names;
  }

  /** A name is read exactly when it is a member name ending in `.xml`. */
  lemma {:induction false} XmlMembersMeaning(names: seq<string>)
    ensures forall n :: n in XmlMembers(names) <==> n in names && EndsWith(n, ".xml")
    ensures |XmlMembers(names)| <= |names|
    decreases |names|
  {
    if names != [] {
      XmlMembersMeaning(names[..|names| - 1]);
      assert names == names[..|names| - 1] + [names[|names| - 1]];
    }
  }

  /** Filtering again changes nothing. */
  lemma {:induction false} XmlMembersIdempotent(names: seq<string>)
    ensures XmlMembers(XmlMembers(names)) == XmlMembers(names)
    decreases |names|
  {
    if names != [] {
      var init := names[..|names| - 1];
      XmlMembersIdempotent(init);
      var m := XmlMembers(init);
      if EndsWith(names[|names| - 1], ".xml") {
        var all := m + [names[|names| - 1]];
        assert all[..|all| - 1] == m && all[|all| - 1] == names[|names| - 1];
        assert XmlMembers(all) == XmlMembers(m) + [names[|names| - 1]];
        assert XmlMembers(names) == all;
      } else {
        assert XmlMembers(names) == m + [] == m;
        assert XmlMembers(m) == m;
      }
    }
  }
}
