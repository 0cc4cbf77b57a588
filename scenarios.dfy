/** Small inputs worked through the model: a one-field form (the subform
    "Personal", bound to "data.personal", holds the text field "first"
    captioned "First Name") yields exactly its one row, and the sort puts
    "alpha" before "Beta" although 'B' precedes 'a' in code-point order. */
module Scenarios {
  import opened Wrappers
  import opened Xml
  import opened Text
  import opened Form
  import opened RowSort

  /** The namespace the scenario uses. */
  const Ns: string := "x"

  function Leaf(local: string, attrs: map<string, string>, text: Option<string>): Element
  {
    Element(QName(Ns, local), attrs, text, [])
  }

  function Node(local: string, attrs: map<string, string>, children: seq<Element>): Element
  {
    Element(QName(Ns, local), attrs, None, children)
  }

  const TextEl: Element := Leaf("text", map[], Some("First Name"))
  const ValueEl: Element := Node("value", map[], [TextEl])
  const CaptionEl: Element := Node("caption", map[], [ValueEl])
  const EditEl: Element := Leaf("textEdit", map[], None)
  const UiEl: Element := Node("ui", map[], [EditEl])
  const FieldEl: Element := Node("field", map["name" := "first"], [UiEl, CaptionEl])
  const BindEl: Element := Leaf("bind", map["ref" := "data.personal"], None)
  const GroupEl: Element := Node("subform", map["name" := "Personal"], [BindEl, FieldEl])
  const TemplateEl: Element := Node("template", map[], [GroupEl])
  const RootEl: Element := Element("xdp", map[], None, [TemplateEl])

  /** Tags under one namespace differ when their local names differ. */
  lemma QNameDistinct(a: string, b: string)
    requires a != b
    ensures QName(Ns, a) != QName(Ns, b)
  {
    assert QName(Ns, a)[3..] == a && QName(Ns, b)[3..] == b;
  }

  lemma IterLeaf(e: Element)
    requires e.children == []
    ensures Iter(e) == [e]
  {
  }

  lemma IterOne(e: Element)
    requires |e.children| == 1
    ensures Iter(e) == [e] + Iter(e.children[0])
  {
    assert e.children[1..] == [];
    assert IterAll(e.children) == Iter(e.children[0]) + IterAll([]);
    assert IterAll(e.children) == Iter(e.children[0]);
  }

  lemma IterTwo(e: Element)
    requires |e.children| == 2
    ensures Iter(e) == [e] + Iter(e.children[0]) + Iter(e.children[1])
  {
    var cs := e.children;
    var rest := cs[1..];
    assert rest[0] == cs[1] && rest[1..] == [];
    assert IterAll(rest) == Iter(cs[1]) + IterAll([]);
    assert IterAll(rest) == Iter(cs[1]);
    assert IterAll(cs) == Iter(cs[0]) + IterAll(rest);
  }

  /** The elements of the field, in document order. */
  lemma FieldIter()
    ensures Iter(FieldEl) == [FieldEl, UiEl, EditEl, CaptionEl, ValueEl, TextEl]
  {
    IterLeaf(TextEl);
    IterOne(ValueEl);
    IterOne(CaptionEl);
    IterLeaf(EditEl);
    IterOne(UiEl);
    IterTwo(FieldEl);
  }

  /** The whole document, in document order. */
  lemma RootIter()
    ensures Iter(RootEl) == [RootEl, TemplateEl, GroupEl, BindEl] + Iter(FieldEl)
  {
    IterLeaf(BindEl);
    IterTwo(GroupEl);
    IterOne(TemplateEl);
    IterOne(RootEl);
  }

  /** The template is found, and its namespace is "x". */
  lemma ScenarioTemplate()
    ensures Template(RootEl) == Success((TemplateEl, Ns))
  {
    RootIter();
    var all := Iter(RootEl);
    assert !EndsWith(all[0].tag, "template");
    assert TemplateEl.tag[3..] == "template";
    assert all[1..][0] == TemplateEl;
    assert FirstTemplate(all) == FirstTemplate(all[1..]);
    NamespaceOfQName(Ns, "template");
  }

  /** No element of `es` carries `tag`, so the tag test keeps none. */
  lemma TaggedNone(es: seq<Element>, tag: string)
    requires forall e :: e in es ==> e.tag != tag
    ensures Tagged(es, tag) == []
  {
    if Tagged(es, tag) != [] {
      assert Tagged(es, tag)[0] in Tagged(es, tag);
    }
  }

  /** The elements below the template, in document order. */
  lemma TemplateDescendants()
    ensures Descendants(TemplateEl) == [GroupEl, BindEl, FieldEl, UiEl, EditEl, CaptionEl, ValueEl, TextEl]
  {
    FieldIter();
    IterLeaf(BindEl);
    IterTwo(GroupEl);
    IterOne(TemplateEl);
    assert Iter(TemplateEl) == [TemplateEl] + Descendants(TemplateEl);
  }

  /** Of the elements below the template, only the subform is a subform. */
  lemma OneSubformTag()
    ensures forall e :: e in [BindEl, FieldEl, UiEl, EditEl, CaptionEl, ValueEl, TextEl] ==> e.tag != QName(Ns, "subform")
  {
    QNameDistinct("caption", "subform");
  }

  /** The template has one subform. */
  lemma ScenarioSubforms()
    ensures Subforms(TemplateEl, Ns) == [GroupEl]
  {
    var sub := QName(Ns, "subform");
    OneStep(TemplateEl, Desc(sub));
    TemplateDescendants();
    var ds := Descendants(TemplateEl);
    var rest := [BindEl, FieldEl, UiEl, EditEl, CaptionEl, ValueEl, TextEl];
    assert ds[1..] == rest;
    OneSubformTag();
    TaggedNone(rest, sub);
    assert Tagged(ds, sub) == [GroupEl] + Tagged(rest, sub);
  }

  /** The subform has one field. */
  lemma ScenarioFields()
    ensures Fields(GroupEl, Ns) == [FieldEl]
  {
    var cs := GroupEl.children;
    OneStep(GroupEl, Child(QName(Ns, "field")));
    assert cs[1..] == [FieldEl] && cs[1..][1..] == [];
  }

  /** Exactly one element of `es`, the `k`-th, carries `tag`. */
  lemma {:induction false} TaggedUnique(es: seq<Element>, tag: string, k: nat)
    requires k < |es| && es[k].tag == tag
    requires forall i :: 0 <= i < |es| && i != k ==> es[i].tag != tag
    ensures Tagged(es, tag) == [es[k]]
  {
    if k == 0 {
      forall e | e in es[1..] ensures e.tag != tag {
        var i :| 0 <= i < |es[1..]| && es[1..][i] == e;
        assert es[i + 1] == e;
      }
      TaggedNone(es[1..], tag);
    } else {
      TaggedUnique(es[1..], tag, k - 1);
    }
  }

  /** One step from a single element is the tag test over its candidates. */
  lemma ApplySingle(e: Element, s: Step)
    ensures Apply([e], s) == Tagged(Candidates(e, s), s.tag)
  {
    assert [e][1..] == [];
  }

  /** The elements below the field, in document order. */
  lemma FieldDescendants()
    ensures Descendants(FieldEl) == [UiEl, EditEl, CaptionEl, ValueEl, TextEl]
    ensures Descendants(CaptionEl) == [ValueEl, TextEl]
    ensures Descendants(ValueEl) == [TextEl]
  {
    FieldIter();
    IterLeaf(TextEl);
    IterOne(ValueEl);
    IterOne(CaptionEl);
    assert Iter(FieldEl) == [FieldEl] + Descendants(FieldEl);
    assert Iter(FieldEl)[1..] == Descendants(FieldEl);
    assert Iter(CaptionEl) == [CaptionEl] + Descendants(CaptionEl);
    assert Iter(ValueEl) == [ValueEl] + Descendants(ValueEl);
  }

  /** The first step of the caption path: the field's one `caption`. */
  lemma CaptionStep()
    ensures Apply([FieldEl], Desc(QName(Ns, "caption"))) == [CaptionEl]
  {
    FieldDescendants();
    var ds, caption := Descendants(FieldEl), QName(Ns, "caption");
    ApplySingle(FieldEl, Desc(caption));
    assert ds[1..] == [EditEl, CaptionEl, ValueEl, TextEl] && ds[1..][1..] == [CaptionEl, ValueEl, TextEl];
    CaptionFirst();
  }

  /** From the caption on, the caption is the only element so tagged. */
  lemma CaptionFirst()
    ensures Tagged([CaptionEl, ValueEl, TextEl], QName(Ns, "caption")) == [CaptionEl]
  {
    var caption := QName(Ns, "caption");
    assert [CaptionEl, ValueEl, TextEl][1..] == [ValueEl, TextEl];
    TaggedNone([ValueEl, TextEl], caption);
  }

  /** The second and third steps: the caption's `value`, then its `text`. */
  lemma ValueTextSteps()
    ensures Apply([CaptionEl], Desc(QName(Ns, "value"))) == [ValueEl]
    ensures Apply([ValueEl], Desc(QName(Ns, "text"))) == [TextEl]
  {
    FieldDescendants();
    ApplySingle(CaptionEl, Desc(QName(Ns, "value")));
    TaggedUnique(Descendants(CaptionEl), QName(Ns, "value"), 0);
    ApplySingle(ValueEl, Desc(QName(Ns, "text")));
    TaggedUnique(Descendants(ValueEl), QName(Ns, "text"), 0);
  }

  /** The caption path leads to the caption's text. */
  lemma ScenarioLabel()
    ensures Label(FieldEl, Ns) == "First Name"
  {
    CaptionStep();
    ValueTextSteps();
    var path := CaptionPath(Ns);
    assert path[1..] == [path[1], path[2]] && path[1..][1..] == [path[2]] && path[1..][1..][1..] == [];
    assert Select([FieldEl], path) == Select([CaptionEl], path[1..]);
    assert Select([CaptionEl], path[1..]) == Select([ValueEl], [path[2]]);
    assert Select([ValueEl], [path[2]]) == [TextEl];
  }

  /** There is no `assist` below the field. */
  lemma AssistStep()
    ensures Apply([FieldEl], Desc(QName(Ns, "assist"))) == []
  {
    FieldDescendants();
    ApplySingle(FieldEl, Desc(QName(Ns, "assist")));
    TaggedNone(Descendants(FieldEl), QName(Ns, "assist"));
  }

  /** So the speak path finds nothing and the speak text is ''. */
  lemma ScenarioSpeak()
    ensures Speak(FieldEl, Ns) == ""
  {
    AssistStep();
    var path := SpeakPath(Ns);
    assert path[1..] == [path[1]] && path[1..][1..] == [];
    assert Select([FieldEl], path) == Select([], [path[1]]);
    assert Apply([], path[1]) == [];
  }

  /** The first control type tried, `textEdit`, is below the field. */
  lemma ScenarioType()
    ensures TypeOf(FieldEl, Ns) == "textEdit"
  {
    FieldDescendants();
    OneStep(FieldEl, Desc(QName(Ns, "textEdit")));
    assert EditEl in Tagged(Descendants(FieldEl), QName(Ns, "textEdit"));
    assert HasType(FieldEl, Ns, 0);
  }

  /** There is no `items` below the field, so there are no item texts. */
  lemma ScenarioItems()
    ensures Join(ItemTexts(FieldEl, Ns), " | ") == ""
  {
    FieldDescendants();
    OneStep(FieldEl, Desc(QName(Ns, "items")));
    QNameDistinct("value", "items");
    TaggedNone(Descendants(FieldEl), QName(Ns, "items"));
  }

  /** The subform is bound to "data.personal", the field to nothing, and
      the subform has no `occur` child. */
  lemma ScenarioGroup()
    ensures Binding(GroupEl, Ns) == "data.personal"
    ensures Binding(FieldEl, Ns) == ""
    ensures Repeater(GroupEl, Ns) == "no"
  {
    var bind, occur := QName(Ns, "bind"), QName(Ns, "occur");
    OneStep(GroupEl, Child(bind));
    TaggedUnique(GroupEl.children, bind, 0);
    OneStep(FieldEl, Child(bind));
    TaggedNone(FieldEl.children, bind);
    OneStep(GroupEl, Child(occur));
    QNameDistinct("field", "occur");
    TaggedNone(GroupEl.children, occur);
  }

  /** The scenario document yields exactly the one row of its one field. */
  lemma ScenarioRows()
    ensures DocumentRows(RootEl, "A.xdp") ==
      Success([Row("first", "First Name", "textEdit", "", "", "data.personal", "", "Personal", "no", "A.xdp")])
  {
    ScenarioTemplate();
    ScenarioSubforms();
    ScenarioFields();
    ScenarioLabel();
    ScenarioSpeak();
    ScenarioType();
    ScenarioItems();
    ScenarioGroup();
    assert [GroupEl][..0] == [] && [FieldEl][..0] == [];
    assert AllRows([GroupEl], Ns, "A.xdp") == [FieldRow(GroupEl, FieldEl, Ns, "A.xdp")];
  }

  /** A row with only its field name and file filled in. */
  function NamedRow(field: string, file: string): Row
  {
    Row(field, "", "", "", "", "", "", "", "no", file)
  }

  /** Rows from A.xdp ("Beta") and then B.xdp ("alpha") come out as
      "alpha", "Beta": the comparison ignores case. */
  lemma ScenarioCaseInsensitiveOrder()
    ensures SortSpec([NamedRow("Beta", "A.xdp"), NamedRow("alpha", "B.xdp")]) ==
            [NamedRow("alpha", "B.xdp"), NamedRow("Beta", "A.xdp")]
  {
    var beta, alpha := NamedRow("Beta", "A.xdp"), NamedRow("alpha", "B.xdp");
    var s := [beta, alpha];
    assert Key(beta) == "beta" && Key(alpha) == "alpha";
    assert !KeyLe(beta, alpha);
    assert s[..1] == [beta] && [beta][..0] == [];
    assert SortSpec([beta]) == Insert([], beta) == [beta];
    assert SortSpec(s) == Insert([beta], alpha);
    assert [beta][..0] == [];
    assert Insert([beta], alpha) == Insert([], alpha) + [beta];
  }
}
