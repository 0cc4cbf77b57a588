/** The whole run: every directory entry whose name ends with ".xdp" is
    extracted in turn; the first document that fails stops the run with no
    report; otherwise all rows are sorted by field name. */
module Report {
  import opened Wrappers
  import opened Xml
  import opened Text
  import opened Form
  import opened RowSort

  /** One directory entry: its file name and the tree parsed from it. */
  datatype Document = Document(name: string, root: Element)

  /** Why the run stopped: the document and its error. */
  datatype Failed = Failed(file: string, error: Error)

  predicate IsXdp(name: string)
  {
    EndsWith(name, ".xdp")
  }

  /** The rows of every .xdp entry, in directory order, or the first failure.
      Only .xdp entries fail, and every row names an .xdp entry. */
  function Collect(docs: seq<Document>): (r: Result<seq<Row>, Failed>)
    ensures r.Failure? ==> IsXdp(r.error.file)
    ensures r.Success? ==> forall x :: x in r.value ==> IsXdp(x.forms)
  {
    if docs == [] then Success([]) else CollectStep(Collect(docs[..|docs| - 1]), docs[|docs| - 1])
  }

  /** One more entry after the rows collected so far: skipped unless it is
      an .xdp file, and the end of the run if its document fails. */
  function CollectStep(sofar: Result<seq<Row>, Failed>, d: Document): (r: Result<seq<Row>, Failed>)
    ensures r.Success? ==> sofar.Success? && sofar.value <= r.value
    ensures sofar.Success? && r.Failure? ==> IsXdp(d.name) && r.error.file == d.name
  {
    match sofar
    case Failure(e) => Failure(e)
    case Success(rows) =>
      if !IsXdp(d.name) then Success(rows)
      else
        match DocumentRows(d.root, d.name)
        case Failure(e) => Failure(Failed(d.name, e))
        case Success(more) => Success(rows + more)
  }

  /** The rows the report holds, in the order it writes them: as many as
      were collected, each naming an .xdp entry, or the first failure. */
  function ReportRows(docs: seq<Document>): (r: Result<seq<Row>, Failed>)
    ensures r.Failure? <==> Collect(docs).Failure?
    ensures r.Failure? ==> r.error == Collect(docs).error && IsXdp(r.error.file)
    ensures r.Success? ==> |r.value| == |Collect(docs).value| && forall x :: x in r.value ==> IsXdp(x.forms)
  {
    match Collect(docs)
    case Failure(e) => Failure(e)
    case Success(rows) =>
      SortSpecPermutation(rows);
      assert forall x :: x in SortSpec(rows) ==> x in multiset(rows);
      Success(SortSpec(rows))
  }

  /** The entries whose name ends with ".xdp", in order. */
  function XdpOnly(docs: seq<Document>): (r: seq<Document>)
    ensures forall d :: d in r <==> d in docs && IsXdp(d.name)
  {
    if docs == [] then []
    else XdpOnly(docs[..|docs| - 1]) + (if IsXdp(docs[|docs| - 1].name) then [docs[|docs| - 1]] else [])
  }

  /** Entries whose name does not end with ".xdp" change nothing. */
  lemma {:induction false} CollectIgnoresOthers(docs: seq<Document>)
    ensures Collect(docs) == Collect(XdpOnly(docs))
  {
    if docs != [] {
      var init, d := docs[..|docs| - 1], docs[|docs| - 1];
      CollectIgnoresOthers(init);
      if IsXdp(d.name) {
        var x := XdpOnly(init) + [d];
        assert XdpOnly(docs) == x;
        assert x[..|x| - 1] == XdpOnly(init) && x[|x| - 1] == d;
        assert Collect(x) == CollectStep(Collect(XdpOnly(init)), d);
        assert Collect(docs) == CollectStep(Collect(init), d);
      } else {
        assert XdpOnly(docs) == XdpOnly(init);
        assert Collect(docs) == Collect(init);
      }
    }
  }

  /** Once a prefix of the entries fails, the whole run fails the same way. */
  lemma {:induction false} CollectFailureSticks(docs: seq<Document>, n: nat)
    requires n <= |docs| && Collect(docs[..n]).Failure?
    ensures Collect(docs) == Collect(docs[..n])
    decreases |docs| - n
  {
    if n < |docs| {
      var m := n + 1;
      assert docs[..m][..n] == docs[..n];
      CollectFailureSticks(docs, m);
    } else {
      assert docs[..n] == docs;
    }
  }

  /** The run fails exactly when some .xdp document fails, and then it names
      the first such document and its error. */
  lemma {:induction false} CollectFailure(docs: seq<Document>)
    ensures Collect(docs).Success? <==> forall i :: 0 <= i < |docs| && IsXdp(docs[i].name) ==> DocumentRows(docs[i].root, docs[i].name).Success?
    ensures Collect(docs).Failure? ==>
      exists i :: 0 <= i < |docs| && IsXdp(docs[i].name) && docs[i].name == Collect(docs).error.file &&
                  DocumentRows(docs[i].root, docs[i].name) == Failure(Collect(docs).error.error) &&
                  forall j :: 0 <= j < i && IsXdp(docs[j].name) ==> DocumentRows(docs[j].root, docs[j].name).Success?
  {
    if docs != [] {
      var init, d := docs[..|docs| - 1], docs[|docs| - 1];
      CollectFailure(init);
      assert forall i :: 0 <= i < |init| ==> init[i] == docs[i];
    }
  }

  /** Every row of the run is a row of the .xdp entry it names. */
  lemma {:induction false} CollectForms(docs: seq<Document>)
    ensures Collect(docs).Success? ==>
      forall r :: r in Collect(docs).value ==>
        exists i :: 0 <= i < |docs| && IsXdp(docs[i].name) && DocumentRows(docs[i].root, docs[i].name).Success? &&
                    r in DocumentRows(docs[i].root, docs[i].name).value && r.forms == docs[i].name
  {
    if docs != [] {
      var init, d := docs[..|docs| - 1], docs[|docs| - 1];
      CollectForms(init);
      if Collect(docs).Success? {
        forall r | r in Collect(docs).value
          ensures exists i :: 0 <= i < |docs| && IsXdp(docs[i].name) && DocumentRows(docs[i].root, docs[i].name).Success? &&
                              r in DocumentRows(docs[i].root, docs[i].name).value && r.forms == docs[i].name
        {
          if r in Collect(init).value {
            var i :| 0 <= i < |init| && IsXdp(init[i].name) && DocumentRows(init[i].root, init[i].name).Success? &&
                     r in DocumentRows(init[i].root, init[i].name).value && r.forms == init[i].name;
            assert docs[i] == init[i];
          } else {
            assert docs[|docs| - 1] == d;
          }
        }
      }
    }
  }

  /** Every row of every .xdp document is in the run's rows when the run
      succeeds. */
  lemma {:induction false} CollectComplete(docs: seq<Document>)
    ensures Collect(docs).Success? ==>
      forall i, r ::
        (0 <= i < |docs| && IsXdp(docs[i].name) && DocumentRows(docs[i].root, docs[i].name).Success? &&
         r in DocumentRows(docs[i].root, docs[i].name).value) ==> r in Collect(docs).value
  {
    if docs != [] && Collect(docs).Success? {
      var init, d := docs[..|docs| - 1], docs[|docs| - 1];
      CollectLast(docs);
      var before, all := Collect(init).value, Collect(docs).value;
      var last := if IsXdp(d.name) then DocumentRows(d.root, d.name).value else [];
      assert all == before + last;
      forall i, r | 0 <= i < |docs| && IsXdp(docs[i].name) && DocumentRows(docs[i].root, docs[i].name).Success? &&
                    r in DocumentRows(docs[i].root, docs[i].name).value
        ensures r in all
      {
        if i < |init| {
          CollectComplete(init);
          assert docs[i] == init[i];
          assert r in before;
        } else {
          assert i == |docs| - 1;
          assert last == DocumentRows(d.root, d.name).value;
        }
      }
    }
  }

  /** A successful run's rows are those of all entries but the last,
      followed by the last entry's rows when it is an .xdp file. */
  lemma CollectLast(docs: seq<Document>)
    requires docs != []
    ensures Collect(docs).Success? ==>
      var d := docs[|docs| - 1];
      Collect(docs[..|docs| - 1]).Success? &&
      Collect(docs).value ==
        Collect(docs[..|docs| - 1]).value + (if IsXdp(d.name) then DocumentRows(d.root, d.name).value else [])
  {
    var init, d := docs[..|docs| - 1], docs[|docs| - 1];
    var sofar := Collect(init);
    assert Collect(docs) == CollectStep(sofar, d);
    if sofar.Success? && IsXdp(d.name) {
      var more := DocumentRows(d.root, d.name);
      if more.Success? {
        assert CollectStep(sofar, d) == Success(sofar.value + more.value);
      }
    }
  }

  /** The number of rows the .xdp documents among `docs` yield, summed. */
  function RowTotal(docs: seq<Document>): nat
  {
    if docs == [] then 0
    else
      var d := docs[|docs| - 1];
      RowTotal(docs[..|docs| - 1]) +
      (if IsXdp(d.name) && DocumentRows(d.root, d.name).Success? then |DocumentRows(d.root, d.name).value| else 0)
  }

  /** A successful run holds exactly as many rows as its .xdp documents yield. */
  lemma {:induction false} CollectCount(docs: seq<Document>)
    ensures Collect(docs).Success? ==> |Collect(docs).value| == RowTotal(docs)
  {
    if docs != [] && Collect(docs).Success? {
      var init, d := docs[..|docs| - 1], docs[|docs| - 1];
      CollectCount(init);
      CollectLast(docs);
    }
  }

  /** The report holds the collected rows, permuted, non-decreasing by
      lower-cased field name, with rows of equal key in collection order. */
  lemma ReportIsStableSort(docs: seq<Document>)
    ensures ReportRows(docs).Success? <==> Collect(docs).Success?
    ensures ReportRows(docs).Success? ==>
      var rows, out := Collect(docs).value, ReportRows(docs).value;
      Sorted(out) && multiset(out) == multiset(rows) && forall k :: WithKey(out, k) == WithKey(rows, k)
  {
    if Collect(docs).Success? {
      var rows := Collect(docs).value;
      SortSpecSorted(rows);
      SortSpecPermutation(rows);
      forall k ensures WithKey(SortSpec(rows), k) == WithKey(rows, k) {
        SortSpecStable(rows, k);
      }
    }
  }

  /** The script: the loop over directory entries, the extraction of each
      .xdp document, then the sort in place. */
  method Run(docs: seq<Document>) returns (res: Result<seq<Row>, Failed>)
    ensures res == ReportRows(docs)
  {
    var rows: seq<Row> := [];
    var i := 0;
    while i < |docs|
      invariant 0 <= i <= |docs|
      invariant Collect(docs[..i]) == Success(rows)
    {
      var d := docs[i];
      assert docs[..i + 1][..i] == docs[..i];
      if IsXdp(d.name) {
        var r := ExtractDocument(d.root, d.name);
        if r.Failure? {
          CollectFailureSticks(docs, i + 1);
          assert docs[..|docs|] == docs;
          return Failure(Failed(d.name, r.error));
        }
        rows := rows + r.value;
      }
      i := i + 1;
    }
    assert docs[..i] == docs;
    var a := new Row[|rows|](k requires 0 <= k < |rows| => rows[k]);
    assert a[..] == rows;
    SortRows(a);
    res := Success(a[..]);
  }
}
