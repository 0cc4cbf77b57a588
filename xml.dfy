/** The parsed document tree the script walks, and the part of
    ElementTree's path language it uses: `elem.iter()`, `elem.get(key, d)`,
    and the paths `./x`, `.//x` and chains of them, evaluated by `findall`
    (every match, in the order ElementTree yields them) and `find` (the
    first match, or None). */
module Xml {
  import opened Wrappers

  /** One element of a parsed document: its (possibly `{namespace}`-qualified)
      tag, its attributes, its text (None when the element has none) and its
      child elements in document order. */
  datatype Element = Element(tag: string, attrs: map<string, string>, text: Option<string>, children: seq<Element>)

  /** `elem.iter()`: the element itself, then every descendant, in document order. */
  function Iter(e: Element): (r: seq<Element>)
    ensures |r| >= 1 && r[0] == e
    ensures e.children != [] ==> |r| >= 2 && r[1] == e.children[0]
  {
    [e] + IterAll(e.children)
  }

  /** The pre-order traversals of a sequence of siblings, one after another. */
  function IterAll(cs: seq<Element>): (r: seq<Element>)
    ensures cs != [] ==> |r| >= 1 && r[0] == cs[0]
  {
    if cs == [] then [] else Iter(cs[0]) + IterAll(cs[1..])
  }

  /** The strict descendants of `e`, in document order. */
  function Descendants(e: Element): seq<Element>
  {
    IterAll(e.children)
  }

  /** `elem.get(key, default)`. */
  function Get(e: Element, key: string, default: string): string
  {
    if key in e.attrs then e.attrs[key] else default
  }

  /** One step of a path: `./tag` (a direct child) or `.//tag` (any strict
      descendant). The tag is already resolved through the namespace map. */
  datatype Step = Child(tag: string) | Desc(tag: string)

  /** The elements one step may reach from `e`, before the tag test. */
  function Candidates(e: Element, s: Step): seq<Element>
  {
    match s
    case Child(_) => e.children
    case Desc(_) => Descendants(e)
  }

  /** The elements of `es` whose tag is exactly `tag`, in their order. */
  function Tagged(es: seq<Element>, tag: string): (r: seq<Element>)
    ensures |r| <= |es|
    ensures forall x :: x in r <==> x in es && x.tag == tag
  {
    if es == [] then [] else (if es[0].tag == tag then [es[0]] else []) + Tagged(es[1..], tag)
  }

  /** The number of positions of `es` holding an element tagged `tag`. */
  function TagCount(es: seq<Element>, tag: string): nat
  {
    |set j | 0 <= j < |es| && es[j].tag == tag|
  }

  /** Appending one element extends the tag test by that element or by nothing. */
  lemma {:induction false} TaggedSnoc(es: seq<Element>, x: Element, tag: string)
    ensures Tagged(es + [x], tag) == Tagged(es, tag) + (if x.tag == tag then [x] else [])
  {
    if es != [] {
      assert (es + [x])[1..] == es[1..] + [x];
      TaggedSnoc(es[1..], x, tag);
    }
  }

  /** The tag test keeps one element for every position holding the tag. */
  lemma {:induction false} TaggedCount(es: seq<Element>, tag: string)
    ensures |Tagged(es, tag)| == TagCount(es, tag)
  {
    if es != [] {
      var init, x := es[..|es| - 1], es[|es| - 1];
      TaggedCount(init, tag);
      assert init + [x] == es;
      TaggedSnoc(init, x, tag);
      TagCountSnoc(init, x, tag);
    }
  }

  /** Appending one element adds one position exactly when it carries the tag. */
  lemma TagCountSnoc(es: seq<Element>, x: Element, tag: string)
    ensures TagCount(es + [x], tag) == TagCount(es, tag) + (if x.tag == tag then 1 else 0)
  {
    var all := es + [x];
    var before := set j | 0 <= j < |es| && es[j].tag == tag;
    var after := set j | 0 <= j < |all| && all[j].tag == tag;
    assert forall j :: 0 <= j < |es| ==> all[j] == es[j];
    if x.tag == tag {
      assert after == before + {|es|};
    } else {
      assert after == before;
    }
  }

  /** One step applied to every element of the context in turn; like
      ElementTree's selectors, it does not remove duplicates. */
  function Apply(ctx: seq<Element>, s: Step): (r: seq<Element>)
    ensures forall x :: x in r ==> x.tag == s.tag
  {
    if ctx == [] then [] else Tagged(Candidates(ctx[0], s), s.tag) + Apply(ctx[1..], s)
  }

  /** A whole path, step by step, from a context. */
  function Select(ctx: seq<Element>, path: seq<Step>): (r: seq<Element>)
    ensures path != [] ==> forall x :: x in r ==> x.tag == path[|path| - 1].tag
    decreases |path|
  {
    if path == [] then ctx else Select(Apply(ctx, path[0]), path[1..])
  }

  /** `elem.findall(path)`: every element it yields carries the tag of the
      path's last step. */
  function FindAll(e: Element, path: seq<Step>): (r: seq<Element>)
    ensures path != [] ==> forall x :: x in r ==> x.tag == path[|path| - 1].tag
  {
    Select([e], path)
  }

  /** `elem.find(path)`: the first element `findall` would yield, or None;
      what it finds carries the tag of the path's last step. */
  function Find(e: Element, path: seq<Step>): (r: Option<Element>)
    ensures r.Some? ==> r.value in FindAll(e, path)
    ensures r.Some? && path != [] ==> r.value.tag == path[|path| - 1].tag
  {
    var r := FindAll(e, path);
    if r == [] then None else Some(r[0])
  }

  /** `e` starts a chain of elements that takes every step of `path` in turn. */
  ghost predicate Reaches(e: Element, path: seq<Step>)
    decreases |path|
  {
    path == [] ||
    exists i :: 0 <= i < |Candidates(e, path[0])| &&
      Candidates(e, path[0])[i].tag == path[0].tag && Reaches(Candidates(e, path[0])[i], path[1..])
  }

  /** The first element of `Tagged(es, tag)` is the first element of `es`
      that carries the tag. */
  lemma {:induction false} TaggedHead(es: seq<Element>, tag: string)
    requires Tagged(es, tag) != []
    ensures exists i :: 0 <= i < |es| && es[i] == Tagged(es, tag)[0] && es[i].tag == tag &&
                        forall j :: 0 <= j < i ==> es[j].tag != tag
  {
    if es[0].tag != tag {
      TaggedHead(es[1..], tag);
      var i :| 0 <= i < |es[1..]| && es[1..][i] == Tagged(es[1..], tag)[0] && es[1..][i].tag == tag &&
               forall j :: 0 <= j < i ==> es[1..][j].tag != tag;
      assert es[i + 1] == Tagged(es, tag)[0];
      assert forall j :: 0 <= j < i + 1 ==> es[j].tag != tag by {
        forall j | 0 <= j < i + 1 ensures es[j].tag != tag {
          if j > 0 { assert es[j] == es[1..][j - 1]; }
        }
      }
    } else {
      assert es[0] == Tagged(es, tag)[0];
    }
  }

  /** An element is in `Apply(ctx, s)` exactly when some element of the
      context reaches it with the step `s`. */
  lemma {:induction false} ApplyMember(ctx: seq<Element>, s: Step, x: Element)
    ensures x in Apply(ctx, s) <==> exists k :: 0 <= k < |ctx| && x in Candidates(ctx[k], s) && x.tag == s.tag
  {
    if ctx != [] {
      ApplyMember(ctx[1..], s, x);
      if x in Apply(ctx[1..], s) {
        var k :| 0 <= k < |ctx[1..]| && x in Candidates(ctx[1..][k], s) && x.tag == s.tag;
        assert ctx[1..][k] == ctx[k + 1];
      }
      if exists k :: 0 <= k < |ctx| && x in Candidates(ctx[k], s) && x.tag == s.tag {
        var k :| 0 <= k < |ctx| && x in Candidates(ctx[k], s) && x.tag == s.tag;
        if k > 0 { assert ctx[k] == ctx[1..][k - 1]; }
      }
    }
  }

  /** A path selects something from a context exactly when some element of
      the context starts a chain that takes all of its steps. */
  lemma {:induction false} SelectNonEmpty(ctx: seq<Element>, path: seq<Step>)
    ensures Select(ctx, path) != [] <==> exists k :: 0 <= k < |ctx| && Reaches(ctx[k], path)
    decreases |path|
  {
    if path == [] {
      if ctx != [] { assert Reaches(ctx[0], path); }
    } else {
      SelectNonEmpty(Apply(ctx, path[0]), path[1..]);
      if Select(ctx, path) != [] {
        SelectForward(ctx, path);
      }
      if exists k :: 0 <= k < |ctx| && Reaches(ctx[k], path) {
        var k :| 0 <= k < |ctx| && Reaches(ctx[k], path);
        SelectBackward(ctx, path, k);
      }
    }
  }

  /** The step from a non-empty selection back to a chain in the context. */
  lemma SelectForward(ctx: seq<Element>, path: seq<Step>)
    requires path != []
    requires exists m :: 0 <= m < |Apply(ctx, path[0])| && Reaches(Apply(ctx, path[0])[m], path[1..])
    ensures exists k :: 0 <= k < |ctx| && Reaches(ctx[k], path)
  {
    var s, rest := path[0], path[1..];
    var next := Apply(ctx, s);
    var m :| 0 <= m < |next| && Reaches(next[m], rest);
    var y := next[m];
    ApplyMember(ctx, s, y);
    var k :| 0 <= k < |ctx| && y in Candidates(ctx[k], s) && y.tag == s.tag;
    var cs := Candidates(ctx[k], s);
    var i :| 0 <= i < |cs| && cs[i] == y;
    assert cs[i].tag == s.tag && Reaches(cs[i], rest);
  }

  /** The step from a chain in the context to a non-empty selection. */
  lemma SelectBackward(ctx: seq<Element>, path: seq<Step>, k: nat)
    requires path != [] && k < |ctx| && Reaches(ctx[k], path)
    ensures exists m :: 0 <= m < |Apply(ctx, path[0])| && Reaches(Apply(ctx, path[0])[m], path[1..])
  {
    var s, rest := path[0], path[1..];
    var cs := Candidates(ctx[k], s);
    var i :| 0 <= i < |cs| && cs[i].tag == s.tag && Reaches(cs[i], rest);
    var y := cs[i];
    ApplyMember(ctx, s, y);
    var next := Apply(ctx, s);
    var m :| 0 <= m < |next| && next[m] == y;
  }

  /** `find` succeeds exactly when the element starts a chain taking every
      step of the path. */
  lemma FindSome(e: Element, path: seq<Step>)
    ensures Find(e, path).Some? <==> Reaches(e, path)
  {
    SelectNonEmpty([e], path);
  }

  /** `findall` with a single step is the tag test over the step's candidates. */
  lemma OneStep(e: Element, s: Step)
    ensures FindAll(e, [s]) == Tagged(Candidates(e, s), s.tag)
  {
    assert [s][1..] == [] && [e][1..] == [];
    calc {
      FindAll(e, [s]);
      Select(Apply([e], s), []);
      Apply([e], s);
      Tagged(Candidates(e, s), s.tag) + Apply([], s);
    }
  }

  /** `find` with a single step yields the first candidate, in document
      order, that carries the tag, and None when there is none. */
  lemma FindOneStep(e: Element, s: Step)
    ensures Find(e, [s]).None? <==> forall i :: 0 <= i < |Candidates(e, s)| ==> Candidates(e, s)[i].tag != s.tag
    ensures Find(e, [s]).Some? ==>
      exists i :: 0 <= i < |Candidates(e, s)| && Candidates(e, s)[i] == Find(e, [s]).value &&
        Candidates(e, s)[i].tag == s.tag && forall j :: 0 <= j < i ==> Candidates(e, s)[j].tag != s.tag
  {
    OneStep(e, s);
    var cs := Candidates(e, s);
    if Tagged(cs, s.tag) != [] {
      TaggedHead(cs, s.tag);
    } else {
      forall i | 0 <= i < |cs| ensures cs[i].tag != s.tag {
        assert cs[i] in cs;
      }
    }
  }
}
