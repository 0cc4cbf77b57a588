/** Field extraction from one parsed XDP document: find the form template
    and its namespace, visit every subform below it and every field directly
    inside each subform, and build one row per field. */
module Form {
  import opened Wrappers
  import opened Xml
  import opened Text

  /** One output row: the ten columns the report writes. */
  datatype Row = Row(field: string, labelText: string, controlType: string, speak: string, items: string,
                     groupBinding: string, fieldBinding: string, groupName: string,
                     isRepeater: string, forms: string)

  /** The report's column names, in order. */
  const Header: seq<string> := ["Field", "Label", "Type", "Speak", "Items", "Group Binding",
                                "Field Binding", "Group Name", "Is Repeater", "Forms"]

  /** A row's values in the order of the columns. */
  function Columns(r: Row): seq<string>
  {
    [r.field, r.labelText, r.controlType, r.speak, r.items, r.groupBinding, r.fieldBinding,
     r.groupName, r.isRepeater, r.forms]
  }

  /** No column name occurs twice. */
  lemma HeaderDistinct()
    ensures forall i, j :: 0 <= i < j < |Header| ==> Header[i] != Header[j]
  {
  }

  /** The dictionary that pairs each key with the value at the same place. */
  function Pairs(ks: seq<string>, vs: seq<string>): (m: map<string, string>)
    requires |ks| == |vs|
    ensures forall k :: k in m <==> k in ks
  {
    if ks == [] then map[] else Pairs(ks[..|ks| - 1], vs[..|vs| - 1])[ks[|ks| - 1] := vs[|vs| - 1]]
  }

  /** With no key repeated, each key is paired with the value at its place. */
  lemma {:induction false} PairsAt(ks: seq<string>, vs: seq<string>)
    requires |ks| == |vs|
    requires forall i, j :: 0 <= i < j < |ks| ==> ks[i] != ks[j]
    ensures forall i :: 0 <= i < |ks| ==> Pairs(ks, vs)[ks[i]] == vs[i]
  {
    if ks != [] {
      var n := |ks| - 1;
      var before := Pairs(ks[..n], vs[..n]);
      assert Pairs(ks, vs) == before[ks[n] := vs[n]];
      PairsAt(ks[..n], vs[..n]);
      forall i | 0 <= i < n ensures Pairs(ks, vs)[ks[i]] == vs[i] {
        assert ks[..n][i] == ks[i] && vs[..n][i] == vs[i];
        assert ks[i] != ks[n];
        assert before[ks[i]] == vs[i];
      }
    }
  }

  /** A row as the dictionary the script appends, each column name paired
      with its value. Its keys are exactly the report's column names, so
      the CSV writer accepts it, and under the `i`-th name it holds the
      `i`-th column, which the writer puts in the `i`-th place of the line. */
  function Record(r: Row): (m: map<string, string>)
    ensures forall k :: k in m <==> k in Header
    ensures forall i :: 0 <= i < |Header| ==> Header[i] in m && m[Header[i]] == Columns(r)[i]
  {
    HeaderDistinct();
    PairsAt(Header, Columns(r));
    Pairs(Header, Columns(r))
  }

  /** Why a document yields no rows and stops the run. */
  datatype Error =
    | MissingTemplate  // no element's tag ends with "template": `template` stays None
    | NoNamespace      // the template's tag names no namespace: the `xfa:` prefix is unbound

  /** The tag `xfa:local` resolves to under the prefix map {'xfa': ns};
      ElementTree reads a leading `{}` as no namespace at all. */
  function QName(ns: string, local: string): (r: string)
    ensures EndsWith(r, local)
    ensures ns == "" ==> r == local
    ensures ns != "" ==> |r| == |ns| + |local| + 2 && r[0] == '{' && r[1..|ns| + 1] == ns && r[|ns| + 1] == '}'
  {
    if ns == "" then local else "{" + ns + "}" + local
  }

  // ---------------------------------------------------------------------
  // Template and namespace

  /** The first element, in the given order, whose tag ends with "template". */
  function FirstTemplate(es: seq<Element>): (r: Option<Element>)
    ensures r.None? <==> forall i :: 0 <= i < |es| ==> !EndsWith(es[i].tag, "template")
    ensures r.Some? ==> exists k :: 0 <= k < |es| && es[k] == r.value && EndsWith(r.value.tag, "template") &&
                                    forall j :: 0 <= j < k ==> !EndsWith(es[j].tag, "template")
  {
    if es == [] then None
    else if EndsWith(es[0].tag, "template") then Some(es[0])
    else
      var r := FirstTemplate(es[1..]);
      assert r.Some? ==> exists k :: 0 <= k < |es| && es[k] == r.value && EndsWith(r.value.tag, "template") &&
                                     forall j :: 0 <= j < k ==> !EndsWith(es[j].tag, "template") by {
        if r.Some? {
          var k :| 0 <= k < |es[1..]| && es[1..][k] == r.value && EndsWith(r.value.tag, "template") &&
                   forall j :: 0 <= j < k ==> !EndsWith(es[1..][j].tag, "template");
          assert es[k + 1] == r.value;
          forall j | 0 <= j < k + 1 ensures !EndsWith(es[j].tag, "template") {
            if j > 0 { assert es[j] == es[1..][j - 1]; }
          }
        }
      }
      r
  }

  /** The namespace URI a qualified tag carries: the text before its first
      `}` with the `{` stripped, or None (the script's '') when there is no `}`. */
  function Namespace(tag: string): (r: Option<string>)
    ensures r.Some? <==> '}' in tag
    ensures r.Some? ==> '}' !in r.value && (r.value == [] || (r.value[0] != '{' && r.value[|r.value| - 1] != '{'))
  {
    if '}' in tag then Some(Strip(BeforeFirst(tag, '}'), '{')) else None
  }

  /** The template of a document and its namespace, or why there is none. */
  function Template(root: Element): (r: Result<(Element, string), Error>)
    ensures r == Failure(MissingTemplate) <==> FirstTemplate(Iter(root)).None?
    ensures r == Failure(MissingTemplate) <==> forall i :: 0 <= i < |Iter(root)| ==> !EndsWith(Iter(root)[i].tag, "template")
    ensures r == Failure(NoNamespace) <==> FirstTemplate(Iter(root)).Some? && '}' !in FirstTemplate(Iter(root)).value.tag
    ensures r.Success? ==> Some(r.value.0) == FirstTemplate(Iter(root)) && Some(r.value.1) == Namespace(r.value.0.tag)
  {
    var all := Iter(root);
    var first := FirstTemplate(all);
    if first.None? then Failure(MissingTemplate)
    else if '}' !in first.value.tag then Failure(NoNamespace)
    else Success((first.value, Namespace(first.value.tag).value))
  }

  /** A tag qualified with a plain namespace URI gives that URI back. */
  lemma NamespaceOfQName(u: string, local: string)
    requires u != "" && '{' !in u && '}' !in u
    ensures Namespace(QName(u, local)) == Some(u)
  {
    var tag := QName(u, local);
    assert tag[|u| + 1] == '}';
    forall k | 0 <= k < |u| + 1 ensures tag[k] != '}' {
      if k > 0 { assert tag[k] == u[k - 1]; }
    }
    BeforeFirstAt(tag, '}', |u| + 1);
    var before := BeforeFirst(tag, '}');
    assert before == "{" + u;
    assert before[1..] == u;
    assert u[0] in u;
    assert u[|u| - 1] in u;
  }

  /** A namespace URI `u}v` with a `}` inside it gives the tag `{u}v}local`,
      and both the script and the model take only `u` as the namespace. */
  lemma NamespaceBraceInUri(u: string, v: string, local: string)
    requires u != "" && '{' !in u && '}' !in u
    ensures Namespace("{" + u + "}" + v + "}" + local) == Some(u)
  {
    assert "{" + u + "}" + v + "}" + local == QName(u, v + "}" + local);
    NamespaceOfQName(u, v + "}" + local);
  }

  /** `root.iter()` with `break` at the first tag ending with "template". */
  method LocateTemplate(root: Element) returns (template: Option<Element>, namespace: Option<string>)
    ensures template == FirstTemplate(Iter(root))
    ensures namespace == (if template.Some? then Namespace(template.value.tag) else None)
  {
    var all := Iter(root);
    template, namespace := None, None;
    var k := 0;
    while k < |all|
      invariant 0 <= k <= |all|
      invariant template == None && namespace == None
      invariant FirstTemplate(all) == FirstTemplate(all[k..])
    {
      var elem := all[k];
      if EndsWith(elem.tag, "template") {
        template := Some(elem);
        if '}' in elem.tag {
          namespace := Some(Strip(BeforeFirst(elem.tag, '}'), '{'));
        }
        break;
      }
      assert all[k..][1..] == all[k + 1..];
      k := k + 1;
    }
  }

  // ---------------------------------------------------------------------
  // Tree facts the column lemmas are stated with

  /** Some strict descendant of `e` carries `tag`. */
  ghost predicate HasDescendant(e: Element, tag: string)
  {
    exists i :: 0 <= i < |Descendants(e)| && Descendants(e)[i].tag == tag
  }

  /** Some direct child of `e` carries `tag`. */
  ghost predicate HasChild(e: Element, tag: string)
  {
    exists i :: 0 <= i < |e.children| && e.children[i].tag == tag
  }

  // ---------------------------------------------------------------------
  // Per-field lookups

  /** `e.find('./xfa:bind')` and its `ref`, '' when either is missing, so a
      non-empty binding needs a direct `bind` child. */
  function Binding(e: Element, ns: string): (r: string)
    ensures r != "" ==> HasChild(e, QName(ns, "bind"))
  {
    FindOneStep(e, Child(QName(ns, "bind")));
    match Find(e, [Child(QName(ns, "bind"))])
    case None => ""
    case Some(b) => Get(b, "ref", "")
  }

  /** A missing direct `bind` child gives ''; otherwise the `ref` of the
      first one (or '' when it has none). */
  lemma BindingFirstChild(e: Element, ns: string)
    ensures !HasChild(e, QName(ns, "bind")) ==> Binding(e, ns) == ""
    ensures forall i :: 0 <= i < |e.children| && e.children[i].tag == QName(ns, "bind") &&
                        (forall j :: 0 <= j < i ==> e.children[j].tag != QName(ns, "bind")) ==>
                        Binding(e, ns) == Get(e.children[i], "ref", "")
  {
    FindOneStep(e, Child(QName(ns, "bind")));
  }

  /** The text of a found element, '' when nothing was found or it has no text. */
  function TextOrEmpty(found: Option<Element>): string
  {
    match found
    case None => ""
    case Some(x) => x.text.GetOr("")
  }

  /** The path `.//xfa:caption//xfa:value//xfa:text`. */
  function CaptionPath(ns: string): seq<Step>
  {
    [Desc(QName(ns, "caption")), Desc(QName(ns, "value")), Desc(QName(ns, "text"))]
  }

  /** The path `.//xfa:assist//xfa:speak`. */
  function SpeakPath(ns: string): seq<Step>
  {
    [Desc(QName(ns, "assist")), Desc(QName(ns, "speak"))]
  }

  /** The caption text, '' unless the caption path reaches a `text`. */
  function Label(f: Element, ns: string): (r: string)
    ensures r != "" ==> Reaches(f, CaptionPath(ns))
    ensures Reaches(f, CaptionPath(ns)) ==>
      exists x :: x in FindAll(f, CaptionPath(ns)) && x.tag == QName(ns, "text") && r == x.text.GetOr("")
  {
    FindSome(f, CaptionPath(ns));
    TextOrEmpty(Find(f, CaptionPath(ns)))
  }

  /** The speak text, '' unless the assist path reaches a `speak`. */
  function Speak(f: Element, ns: string): (r: string)
    ensures r != "" ==> Reaches(f, SpeakPath(ns))
    ensures Reaches(f, SpeakPath(ns)) ==>
      exists x :: x in FindAll(f, SpeakPath(ns)) && x.tag == QName(ns, "speak") && r == x.text.GetOr("")
  {
    FindSome(f, SpeakPath(ns));
    TextOrEmpty(Find(f, SpeakPath(ns)))
  }

  /** The control types, in the order the script tries them. */
  const TypeTags: seq<string> := ["textEdit", "checkButton", "choiceList", "numericEdit", "button", "barcode", "dateTimeEdit"]

  /** `.//xfa:tag` finds something below the field for the `j`-th control type. */
  predicate HasType(f: Element, ns: string, j: nat)
    requires j < |TypeTags|
  {
    Find(f, [Desc(QName(ns, TypeTags[j]))]).Some?
  }

  /** The position, from `i` on, of the first control type found below the
      field, or `|TypeTags|` when there is none. */
  function TypeIndex(f: Element, ns: string, i: nat): (k: nat)
    requires i <= |TypeTags|
    ensures i <= k <= |TypeTags|
    ensures forall j :: i <= j < k ==> !HasType(f, ns, j)
    ensures k < |TypeTags| ==> HasType(f, ns, k)
    decreases |TypeTags| - i
  {
    if i == |TypeTags| then i else if HasType(f, ns, i) then i else TypeIndex(f, ns, i + 1)
  }

  /** The field's control type, '' when none of the listed ones occurs. */
  function TypeOf(f: Element, ns: string): (r: string)
    ensures r == "" || r in TypeTags
  {
    var k := TypeIndex(f, ns, 0);
    if k < |TypeTags| then TypeTags[k] else ""
  }

  /** The field's type is '' exactly when none of the listed control types
      occurs below the field; otherwise it is the first listed one that
      occurs, so no earlier-listed type occurs. */
  lemma TypePriority(f: Element, ns: string)
    ensures TypeOf(f, ns) == "" <==> forall k :: 0 <= k < |TypeTags| ==> !HasDescendant(f, QName(ns, TypeTags[k]))
    ensures TypeOf(f, ns) != "" ==>
      exists k :: 0 <= k < |TypeTags| && TypeOf(f, ns) == TypeTags[k] && HasDescendant(f, QName(ns, TypeTags[k])) &&
                  forall j :: 0 <= j < k ==> !HasDescendant(f, QName(ns, TypeTags[j]))
  {
    forall j | 0 <= j < |TypeTags| ensures HasType(f, ns, j) <==> HasDescendant(f, QName(ns, TypeTags[j])) {
      FindOneStep(f, Desc(QName(ns, TypeTags[j])));
    }
    TypeTagsNonEmpty();
    var k := TypeIndex(f, ns, 0);
    assert TypeOf(f, ns) == "" <==> k == |TypeTags|;
    if k < |TypeTags| {
      assert TypeOf(f, ns) == TypeTags[k] && HasDescendant(f, QName(ns, TypeTags[k]));
    }
  }

  /** No control type is the empty string. */
  lemma TypeTagsNonEmpty()
    ensures forall j :: 0 <= j < |TypeTags| ==> TypeTags[j] != ""
  {
  }

  /** The type loop with `break`. */
  method DetectType(f: Element, ns: string) returns (t: string)
    ensures t == TypeOf(f, ns)
  {
    t := "";
    var i := 0;
    while i < |TypeTags|
      invariant 0 <= i <= |TypeTags|
      invariant t == ""
      invariant TypeIndex(f, ns, 0) == TypeIndex(f, ns, i)
    {
      if Find(f, [Desc(QName(ns, TypeTags[i]))]).Some? {
        t := TypeTags[i];
        break;
      }
      i := i + 1;
    }
  }

  /** The texts of `es` that are not None, in order. */
  function PresentTexts(es: seq<Element>): (r: seq<string>)
    ensures |r| <= |es|
  {
    if es == [] then []
    else PresentTexts(es[..|es| - 1]) + (match es[|es| - 1].text case Some(s) => [s] case None => [])
  }

  /** A string is among the present texts exactly when some element has it
      as its text. */
  lemma {:induction false} PresentTextsMember(es: seq<Element>, s: string)
    ensures s in PresentTexts(es) <==> exists i :: 0 <= i < |es| && es[i].text == Some(s)
  {
    if es != [] {
      var init := es[..|es| - 1];
      PresentTextsMember(init, s);
      if exists i :: 0 <= i < |init| && init[i].text == Some(s) {
        var i :| 0 <= i < |init| && init[i].text == Some(s);
        assert es[i] == init[i];
      }
      if exists i :: 0 <= i < |es| && es[i].text == Some(s) {
        var i :| 0 <= i < |es| && es[i].text == Some(s);
        if i < |es| - 1 { assert init[i] == es[i]; }
      }
    }
  }

  /** There are no present texts exactly when every element's text is None. */
  lemma {:induction false} PresentTextsEmpty(es: seq<Element>)
    ensures PresentTexts(es) == [] <==> forall i :: 0 <= i < |es| ==> es[i].text.None?
  {
    if es != [] {
      var init := es[..|es| - 1];
      PresentTextsEmpty(init);
      assert forall i :: 0 <= i < |init| ==> init[i] == es[i];
    }
  }

  /** The texts under the field's first `items` descendant: every non-None
      text of a `text` element below it, in document order. */
  function ItemTexts(f: Element, ns: string): (r: seq<string>)
    ensures r != [] ==> HasDescendant(f, QName(ns, "items"))
  {
    FindOneStep(f, Desc(QName(ns, "items")));
    match Find(f, [Desc(QName(ns, "items"))])
    case None => []
    case Some(items) => PresentTexts(FindAll(items, [Desc(QName(ns, "text"))]))
  }

  /** No `items` below the field, or no text under the first one, gives no
      item texts, and item texts come from `text` elements under the first
      `items` only. */
  lemma ItemTextsEmpty(f: Element, ns: string)
    ensures !HasDescendant(f, QName(ns, "items")) ==> ItemTexts(f, ns) == []
    ensures Find(f, [Desc(QName(ns, "items"))]).Some? ==>
      var items := Find(f, [Desc(QName(ns, "items"))]).value;
      HasDescendant(f, QName(ns, "items")) && items.tag == QName(ns, "items") &&
      (ItemTexts(f, ns) == [] <==>
         forall i :: 0 <= i < |Descendants(items)| && Descendants(items)[i].tag == QName(ns, "text") ==>
                       Descendants(items)[i].text.None?)
  {
    FindOneStep(f, Desc(QName(ns, "items")));
    match Find(f, [Desc(QName(ns, "items"))])
    case None =>
    case Some(items) =>
      var texts := FindAll(items, [Desc(QName(ns, "text"))]);
      OneStep(items, Desc(QName(ns, "text")));
      PresentTextsEmpty(texts);
      TaggedNoText(Descendants(items), QName(ns, "text"));
  }

  /** No element of `es` has text. */
  ghost predicate NoTexts(es: seq<Element>)
  {
    forall i :: 0 <= i < |es| ==> es[i].text.None?
  }

  /** No element of `es` with the tag has text. */
  ghost predicate NoTextsTagged(es: seq<Element>, tag: string)
  {
    forall i :: 0 <= i < |es| && es[i].tag == tag ==> es[i].text.None?
  }

  /** The elements the tag test keeps all lack text exactly when every
      element with that tag lacks text. */
  lemma TaggedNoText(es: seq<Element>, tag: string)
    ensures NoTexts(Tagged(es, tag)) <==> NoTextsTagged(es, tag)
  {
    var ts := Tagged(es, tag);
    if NoTexts(ts) {
      forall i | 0 <= i < |es| && es[i].tag == tag ensures es[i].text.None? {
        assert es[i] in ts;
      }
    }
    if NoTextsTagged(es, tag) {
      forall i | 0 <= i < |ts| ensures ts[i].text.None? {
        TaggedElement(es, tag, i);
      }
    }
  }

  /** Each element the tag test keeps is an element of `es` with that tag. */
  lemma TaggedElement(es: seq<Element>, tag: string, i: nat)
    requires i < |Tagged(es, tag)|
    ensures exists j :: 0 <= j < |es| && es[j] == Tagged(es, tag)[i] && es[j].tag == tag
  {
    var ts := Tagged(es, tag);
    assert ts[i] in ts;
    var j :| 0 <= j < |es| && es[j] == ts[i];
  }

  /** The items loop: append the text of every `text` below the first
      `items` whose text is not None. */
  method CollectItemTexts(f: Element, ns: string) returns (texts: seq<string>)
    ensures texts == ItemTexts(f, ns)
  {
    texts := [];
    var items := Find(f, [Desc(QName(ns, "items"))]);
    if items.Some? {
      var all := FindAll(items.value, [Desc(QName(ns, "text"))]);
      var i := 0;
      while i < |all|
        invariant 0 <= i <= |all|
        invariant texts == PresentTexts(all[..i])
      {
        assert all[..i + 1][..i] == all[..i];
        if all[i].text.Some? {
          texts := texts + [all[i].text.value];
        }
        i := i + 1;
      }
      assert all[..i] == all;
    }
  }

  // ---------------------------------------------------------------------
  // Repeater flag

  /** Whether the subform repeats: 'yes' exactly when it has a direct
      `occur` child, as the comment on line 73 intends. */
  function Repeater(g: Element, ns: string): (r: string)
    ensures r == "yes" || r == "no"
  {
    if Find(g, [Child(QName(ns, "occur"))]).Some? then "yes" else "no"
  }

  /** The flag as the script computes it: ElementTree reads the path
      'xfa:./occur' as a child tagged `xfa:.` followed by an unqualified
      `occur` child of that one. */
  function RepeaterAsWritten(g: Element, ns: string): (r: string)
    ensures r == "yes" || r == "no"
  {
    if Find(g, [Child(QName(ns, ".")), Child("occur")]).None? then "no" else "yes"
  }

  /** The intended flag is 'yes' or 'no', and 'yes' exactly when the subform
      has a direct `occur` child. */
  lemma RepeaterIff(g: Element, ns: string)
    ensures Repeater(g, ns) == "yes" || Repeater(g, ns) == "no"
    ensures Repeater(g, ns) == "yes" <==> HasChild(g, QName(ns, "occur"))
  {
    FindOneStep(g, Child(QName(ns, "occur")));
  }

  /** The flag as written is 'yes' only when the subform has a child whose
      tag is `xfa:.`, a name no XML parser produces. */
  lemma RepeaterAsWrittenNeedsDotChild(g: Element, ns: string)
    ensures RepeaterAsWritten(g, ns) == "yes" ==> HasChild(g, QName(ns, "."))
  {
    FindSome(g, [Child(QName(ns, ".")), Child("occur")]);
  }

  /** A subform with a direct `occur` child and no child tagged `xfa:.` is a
      repeater, yet the flag as written says 'no'. */
  lemma RepeaterAsWrittenMissesOccur(g: Element, ns: string)
    requires HasChild(g, QName(ns, "occur")) && !HasChild(g, QName(ns, "."))
    ensures Repeater(g, ns) == "yes" && RepeaterAsWritten(g, ns) == "no"
  {
    RepeaterIff(g, ns);
    RepeaterAsWrittenNeedsDotChild(g, ns);
  }

  /** Such a subform exists in every namespace: one `occur` child and nothing else. */
  lemma RepeaterAsWrittenCounterexample(ns: string)
    ensures var g := Element(QName(ns, "subform"), map[], None, [Element(QName(ns, "occur"), map[], None, [])]);
      Repeater(g, ns) == "yes" && RepeaterAsWritten(g, ns) == "no"
  {
    var g := Element(QName(ns, "subform"), map[], None, [Element(QName(ns, "occur"), map[], None, [])]);
    assert g.children[0].tag == QName(ns, "occur");
    assert QName(ns, "occur") != QName(ns, ".") by {
      if ns == "" { assert |QName(ns, "occur")| != |QName(ns, ".")|; }
      else { assert |QName(ns, "occur")| == |ns| + 7 && |QName(ns, ".")| == |ns| + 3; }
    }
    RepeaterAsWrittenMissesOccur(g, ns);
  }

  // ---------------------------------------------------------------------
  // Rows

  /** The row for field `f` directly inside subform `g` of document `file`:
      Forms is the file, Type is '' or a listed control type, and Is
      Repeater is 'yes' or 'no'. */
  function FieldRow(g: Element, f: Element, ns: string, file: string): (r: Row)
    ensures r.forms == file
    ensures r.controlType == "" || r.controlType in TypeTags
    ensures r.isRepeater == "yes" || r.isRepeater == "no"
  {
    Row(Get(f, "name", ""), Label(f, ns), TypeOf(f, ns), Speak(f, ns), Join(ItemTexts(f, ns), " | "),
        Binding(g, ns), Binding(f, ns), Get(g, "name", ""), Repeater(g, ns), file)
  }

  /** Every column of a row is filled in from its own optional lookup: an
      absent piece gives '' and does not affect the others. */
  lemma FieldRowColumns(g: Element, f: Element, ns: string, file: string)
    ensures var r := FieldRow(g, f, ns, file);
      && r.forms == file
      && r.field == Get(f, "name", "")
      && r.groupName == Get(g, "name", "")
      && (!HasChild(g, QName(ns, "bind")) ==> r.groupBinding == "")
      && (!HasChild(f, QName(ns, "bind")) ==> r.fieldBinding == "")
      && (!Reaches(f, CaptionPath(ns)) ==> r.labelText == "")
      && (!Reaches(f, SpeakPath(ns)) ==> r.speak == "")
      && (!HasDescendant(f, QName(ns, "items")) ==> r.items == "")
      && (r.controlType == "" <==> forall k :: 0 <= k < |TypeTags| ==> !HasDescendant(f, QName(ns, TypeTags[k])))
      && (r.controlType != "" ==>
            exists k :: 0 <= k < |TypeTags| && r.controlType == TypeTags[k] && HasDescendant(f, QName(ns, TypeTags[k])) &&
                        forall j :: 0 <= j < k ==> !HasDescendant(f, QName(ns, TypeTags[j])))
      && (r.isRepeater == "yes" <==> HasChild(g, QName(ns, "occur")))
      && (r.isRepeater == "yes" || r.isRepeater == "no")
  {
    BindingFirstChild(g, ns);
    BindingFirstChild(f, ns);
    FindSome(f, CaptionPath(ns));
    FindSome(f, SpeakPath(ns));
    ItemTextsEmpty(f, ns);
    TypePriority(f, ns);
    RepeaterIff(g, ns);
  }

  /** The loop body for one field: the type loop, the items loop and the
      single-value lookups, combined into a row. */
  method ExtractField(g: Element, f: Element, ns: string, file: string) returns (row: Row)
    ensures row == FieldRow(g, f, ns, file)
  {
    var typeText := DetectType(f, ns);
    var itemTexts := CollectItemTexts(f, ns);
    row := Row(Get(f, "name", ""), Label(f, ns), typeText, Speak(f, ns), Join(itemTexts, " | "),
               Binding(g, ns), Binding(f, ns), Get(g, "name", ""), Repeater(g, ns), file);
  }

  /** `template.findall('.//xfa:subform')`: exactly the strict descendants
      of the template tagged `xfa:subform`. */
  function Subforms(t: Element, ns: string): (r: seq<Element>)
    ensures forall x :: x in r <==> x in Descendants(t) && x.tag == QName(ns, "subform")
  {
    OneStep(t, Desc(QName(ns, "subform")));
    FindAll(t, [Desc(QName(ns, "subform"))])
  }

  /** `subform.findall('./xfa:field')`: exactly the direct children of the
      subform tagged `xfa:field`, never more than it has children. */
  function Fields(g: Element, ns: string): (r: seq<Element>)
    ensures |r| <= |g.children|
    ensures forall x :: x in r <==> x in g.children && x.tag == QName(ns, "field")
  {
    OneStep(g, Child(QName(ns, "field")));
    FindAll(g, [Child(QName(ns, "field"))])
  }

  /** The rows of the fields `fs` of subform `g`, in order, one per field. */
  function GroupRows(g: Element, fs: seq<Element>, ns: string, file: string): (rows: seq<Row>)
    ensures |rows| == |fs|
  {
    if fs == [] then [] else GroupRows(g, fs[..|fs| - 1], ns, file) + [FieldRow(g, fs[|fs| - 1], ns, file)]
  }

  /** Every row of a subform carries the subform's name, binding and
      repeater flag, and the file name. */
  lemma GroupRowsShared(g: Element, fs: seq<Element>, ns: string, file: string)
    ensures forall i :: 0 <= i < |GroupRows(g, fs, ns, file)| ==>
      var r := GroupRows(g, fs, ns, file)[i];
      r.groupName == Get(g, "name", "") && r.groupBinding == Binding(g, ns) &&
      r.isRepeater == Repeater(g, ns) && r.forms == file
  {
    GroupRowsAt(g, fs, ns, file);
  }

  /** The rows of every subform in `gs`, one subform after another; every
      one of them names the document. */
  function AllRows(gs: seq<Element>, ns: string, file: string): (rows: seq<Row>)
    ensures forall r :: r in rows ==> r.forms == file
  {
    if gs == [] then [] else
      GroupRowsShared(gs[|gs| - 1], Fields(gs[|gs| - 1], ns), ns, file);
      AllRows(gs[..|gs| - 1], ns, file) + GroupRows(gs[|gs| - 1], Fields(gs[|gs| - 1], ns), ns, file)
  }

  /** The number of `field` children summed over the subforms `gs`. */
  function FieldCount(gs: seq<Element>, ns: string): nat
  {
    if gs == [] then 0 else FieldCount(gs[..|gs| - 1], ns) + TagCount(gs[|gs| - 1].children, QName(ns, "field"))
  }

  /** All rows of a document, or why it has none: it fails exactly when the
      template search does, with that error, and every row names the file. */
  function DocumentRows(root: Element, file: string): (r: Result<seq<Row>, Error>)
    ensures r.Failure? <==> Template(root).Failure?
    ensures r.Failure? ==> r.error == Template(root).error
    ensures r.Success? ==> forall x :: x in r.value ==> x.forms == file
  {
    match Template(root)
    case Failure(e) => Failure(e)
    case Success((t, ns)) => Success(AllRows(Subforms(t, ns), ns, file))
  }

  /** One row per pair of a subform and one of its direct `field` children:
      as many rows as there are such pairs. */
  lemma {:induction false} RowCount(gs: seq<Element>, ns: string, file: string)
    ensures |AllRows(gs, ns, file)| == FieldCount(gs, ns)
  {
    if gs != [] {
      RowCount(gs[..|gs| - 1], ns, file);
      OneStep(gs[|gs| - 1], Child(QName(ns, "field")));
      TaggedCount(gs[|gs| - 1].children, QName(ns, "field"));
    }
  }

  /** Every row is the row of some subform in `gs` and one of its direct
      `field` children. */
  lemma {:induction false} RowOrigin(gs: seq<Element>, ns: string, file: string)
    ensures forall r :: r in AllRows(gs, ns, file) ==>
      exists i, j :: 0 <= i < |gs| && 0 <= j < |gs[i].children| && gs[i].children[j].tag == QName(ns, "field") &&
                     r == FieldRow(gs[i], gs[i].children[j], ns, file)
  {
    if gs != [] {
      var init, g := gs[..|gs| - 1], gs[|gs| - 1];
      RowOrigin(init, ns, file);
      forall r | r in AllRows(gs, ns, file)
        ensures exists i, j :: 0 <= i < |gs| && 0 <= j < |gs[i].children| && gs[i].children[j].tag == QName(ns, "field") &&
                               r == FieldRow(gs[i], gs[i].children[j], ns, file)
      {
        if r in AllRows(init, ns, file) {
          var i, j :| 0 <= i < |init| && 0 <= j < |init[i].children| && init[i].children[j].tag == QName(ns, "field") &&
                      r == FieldRow(init[i], init[i].children[j], ns, file);
          assert gs[i] == init[i];
        } else {
          var j := GroupRowOrigin(g, ns, file, r);
          assert gs[|gs| - 1] == g;
        }
      }
    }
  }

  /** A row of one subform is the row of one of its direct `field` children. */
  lemma GroupRowOrigin(g: Element, ns: string, file: string, r: Row) returns (j: nat)
    requires r in GroupRows(g, Fields(g, ns), ns, file)
    ensures j < |g.children| && g.children[j].tag == QName(ns, "field") && r == FieldRow(g, g.children[j], ns, file)
  {
    var fs := Fields(g, ns);
    OneStep(g, Child(QName(ns, "field")));
    GroupRowsMember(g, fs, ns, file);
    var f :| f in fs && r == FieldRow(g, f, ns, file);
    j := IndexOf(g.children, f);
  }

  /** Every subform in `gs` and direct `field` child of it has its row. */
  lemma {:induction false} RowForEveryField(gs: seq<Element>, ns: string, file: string)
    ensures forall i, j :: 0 <= i < |gs| && 0 <= j < |gs[i].children| && gs[i].children[j].tag == QName(ns, "field") ==>
      FieldRow(gs[i], gs[i].children[j], ns, file) in AllRows(gs, ns, file)
  {
    if gs != [] {
      var init, g := gs[..|gs| - 1], gs[|gs| - 1];
      RowForEveryField(init, ns, file);
      var fs := Fields(g, ns);
      OneStep(g, Child(QName(ns, "field")));
      GroupRowsMember(g, fs, ns, file);
      forall i, j | 0 <= i < |gs| && 0 <= j < |gs[i].children| && gs[i].children[j].tag == QName(ns, "field")
        ensures FieldRow(gs[i], gs[i].children[j], ns, file) in AllRows(gs, ns, file)
      {
        if i < |gs| - 1 {
          assert gs[i] == init[i];
        } else {
          assert g.children[j] in fs;
        }
      }
    }
  }

  /** The rows of a subform are the rows of its fields `fs`. */
  lemma GroupRowsMember(g: Element, fs: seq<Element>, ns: string, file: string)
    ensures forall r :: r in GroupRows(g, fs, ns, file) ==> exists f :: f in fs && r == FieldRow(g, f, ns, file)
    ensures forall f :: f in fs ==> FieldRow(g, f, ns, file) in GroupRows(g, fs, ns, file)
  {
    var rows := GroupRows(g, fs, ns, file);
    GroupRowsAt(g, fs, ns, file);
    forall r | r in rows ensures exists f :: f in fs && r == FieldRow(g, f, ns, file) {
      var i :| 0 <= i < |rows| && rows[i] == r;
      assert fs[i] in fs;
    }
    forall f | f in fs ensures FieldRow(g, f, ns, file) in rows {
      var i :| 0 <= i < |fs| && fs[i] == f;
      assert rows[i] in rows;
    }
  }

  /** The `i`-th row of a subform is the row of its `i`-th field. */
  lemma {:induction false} GroupRowsAt(g: Element, fs: seq<Element>, ns: string, file: string)
    ensures forall i :: 0 <= i < |fs| ==> GroupRows(g, fs, ns, file)[i] == FieldRow(g, fs[i], ns, file)
  {
    if fs != [] {
      var init := fs[..|fs| - 1];
      GroupRowsAt(g, init, ns, file);
      var rows := GroupRows(g, fs, ns, file);
      assert rows == GroupRows(g, init, ns, file) + [FieldRow(g, fs[|fs| - 1], ns, file)];
      forall i | 0 <= i < |fs| - 1 ensures rows[i] == FieldRow(g, fs[i], ns, file) {
        assert init[i] == fs[i];
      }
    }
  }

  /** The inner loop over the direct `field` children of the subform. */
  method ExtractGroup(g: Element, ns: string, file: string) returns (rows: seq<Row>)
    ensures rows == GroupRows(g, Fields(g, ns), ns, file)
  {
    rows := ExtractFields(g, Fields(g, ns), ns, file);
  }

  /** The inner loop's body for each field in turn: one row per field, in order. */
  method ExtractFields(g: Element, fields: seq<Element>, ns: string, file: string) returns (rows: seq<Row>)
    ensures rows == GroupRows(g, fields, ns, file)
  {
    rows := [];
    var j := 0;
    while j < |fields|
      invariant 0 <= j <= |fields|
      invariant rows == GroupRows(g, fields[..j], ns, file)
    {
      var row := ExtractField(g, fields[j], ns, file);
      GroupRowsStep(g, fields, j, ns, file);
      rows := rows + [row];
      j := j + 1;
    }
    assert fields[..j] == fields;
  }

  /** The rows of one more field follow the rows of the fields before it. */
  lemma GroupRowsStep(g: Element, fs: seq<Element>, j: nat, ns: string, file: string)
    requires j < |fs|
    ensures GroupRows(g, fs[..j + 1], ns, file) == GroupRows(g, fs[..j], ns, file) + [FieldRow(g, fs[j], ns, file)]
  {
    assert fs[..j + 1][..j] == fs[..j];
  }

  /** The rows of one more subform follow the rows of the subforms before it. */
  lemma AllRowsStep(gs: seq<Element>, i: nat, ns: string, file: string)
    requires i < |gs|
    ensures AllRows(gs[..i + 1], ns, file) == AllRows(gs[..i], ns, file) + GroupRows(gs[i], Fields(gs[i], ns), ns, file)
  {
    assert gs[..i + 1][..i] == gs[..i];
  }

  /** A position at which `x` occurs in `xs`. */
  lemma IndexOf<T>(xs: seq<T>, x: T) returns (j: nat)
    requires x in xs
    ensures j < |xs| && xs[j] == x
  {
    j :| 0 <= j < |xs| && xs[j] == x;
  }

  /** The outer loop: the rows of every subform, one subform after another. */
  method ExtractGroups(groups: seq<Element>, ns: string, file: string) returns (rows: seq<Row>)
    ensures rows == AllRows(groups, ns, file)
  {
    rows := [];
    var i := 0;
    while i < |groups|
      invariant 0 <= i <= |groups|
      invariant rows == AllRows(groups[..i], ns, file)
    {
      var more := ExtractGroup(groups[i], ns, file);
      AllRowsStep(groups, i, ns, file);
      rows := rows + more;
      i := i + 1;
    }
    assert groups[..i] == groups;
  }

  /** The template search, then the rows of every subform below the template. */
  method ExtractDocument(root: Element, file: string) returns (res: Result<seq<Row>, Error>)
    ensures res == DocumentRows(root, file)
  {
    var template, namespace := LocateTemplate(root);
    if template.None? {
      return Failure(MissingTemplate);
    }
    if namespace.None? {
      return Failure(NoNamespace);
    }
    var t, ns := template.value, namespace.value;
    var rows := ExtractGroups(FindAll(t, [Desc(QName(ns, "subform"))]), ns, file);
    res := Success(rows);
  }
}
