/**
 * The report cross-checker (validate_report.py): which repository files are parsed as XML,
 * which finding files the master report must reference, the check that it does, the search
 * for an editorial keyword in the parsed report, and how `main` folds these into one verdict.
 *
 * The repository listing (`git ls-files`), the raw report text, its parsed element tree and
 * the outcome of the SAX parse of each file are inputs here, not computed.
 */
module ValidateReport {
  import opened Strings

  /** Files below this directory may hold XML fragments and are never parsed. */
  const SNIPPET_DIR := "/snippets/"
  /** The path prefixes of the files the report must reference, in the order they are checked. */
  const TYPE_PATHS := ["Findings", "Non-Findings"]
  /** The editorial marker `main` searches for. */
  const KEYWORD := "TODO"

  // ---------------------------------------------------------------------------------------
  // Which files are validated

  /** The extension test of `validate_files`: `.xml`, or `xml"` for a quoted name, in any case. */
  predicate IsXmlName(filename: string) {
    EndsWith(Lower(filename), ".xml") || EndsWith(Lower(filename), "xml\"")
  }

  /** A file is parsed exactly when it has an XML name and does not lie under a snippet directory. */
  predicate Eligible(filename: string) {
    IsXmlName(filename) && !Contains(filename, SNIPPET_DIR)
  }

  /** The files `validate_files` hands to `validate_xml`, in list order. */
  function EligibleFiles(filenames: seq<string>): (r: seq<string>)
    ensures forall f :: f in r <==> f in filenames && Eligible(f)
    ensures IsSubsequence(r, filenames)
  {
    FilterIsSubsequence(Eligible, filenames);
    Filter(Eligible, filenames)
  }

  /** The verdict of `validate_files`: every eligible file parses. */
  ghost predicate AllValid(filenames: seq<string>, validXml: string -> bool) {
    forall f :: f in EligibleFiles(filenames) ==> validXml(f)
  }

  /** The snippet test is case-sensitive, while the extension test is not. */
  lemma EligibilityExamples()
    ensures Eligible("Findings/xss.XML")
    ensures Eligible("\"Findings/xss.xml\"")
    ensures !Eligible("Report/snippets/code.xml")
    ensures Eligible("Report/SNIPPETS/code.xml")
    ensures !Eligible("Findings/xss.xml.bak")
  {
    assert OccursAt("Report/snippets/code.xml", SNIPPET_DIR, 6);
    assert Lower("Findings/xss.XML")[12..] == ".xml";
    AbsentChar("Findings/xss.XML", SNIPPET_DIR, 4);
    assert Lower("\"Findings/xss.xml\"")[14..] == "xml\"";
    AbsentChar("\"Findings/xss.xml\"", SNIPPET_DIR, 4);
    assert Lower("Report/SNIPPETS/code.xml")[20..] == ".xml";
    AbsentChar("Report/SNIPPETS/code.xml", SNIPPET_DIR, 2);
    assert Lower("Findings/xss.xml.bak")[16..] == ".bak";
  }

  /**
   * `validate_files`: every eligible file is parsed, in list order, even after an earlier one
   * failed (the parse is evaluated before `and result`); the result is true exactly when all of
   * them parse. `validated` records the files handed to the parser.
   */
  method ValidateFiles(filenames: seq<string>, validXml: string -> bool)
    returns (result: bool, validated: seq<string>)
    ensures validated == EligibleFiles(filenames)
    ensures result <==> AllValid(filenames, validXml)
  {
    result := true;
    validated := [];
    for i := 0 to |filenames|
      invariant validated == Filter(Eligible, filenames[..i])
      invariant result <==> forall f :: f in validated ==> validXml(f)
    {
      var filename := filenames[i];
      FilterSnoc(Eligible, filenames[..i], filename);
      assert filenames[..i + 1] == filenames[..i] + [filename];
      if EndsWith(Lower(filename), ".xml") || EndsWith(Lower(filename), "xml\"") {
        if !Contains(filename, SNIPPET_DIR) {
          var ok := validXml(filename);
          validated := validated + [filename];
          result := ok && result;
        }
      }
    }
    assert filenames[..|filenames|] == filenames;
  }

  /** Files the parser never sees, wherever they are listed, do not change the verdict of `validate_files`. */
  lemma {:induction false} IneligibleIgnored(a: seq<string>, f: string, b: seq<string>, validXml: string -> bool)
    requires !Eligible(f)
    ensures EligibleFiles(a + [f] + b) == EligibleFiles(a + b)
    ensures AllValid(a + [f] + b, validXml) == AllValid(a + b, validXml)
  {
    FilterAppend(Eligible, a + [f], b);
    FilterAppend(Eligible, a, b);
    FilterSnoc(Eligible, a, f);
  }

  // ---------------------------------------------------------------------------------------
  // Which files the report must reference

  /** The selection test of `get_type`: a lower-cased `.xml` name below `typePath`. */
  predicate IsOfType(typePath: string, filename: string) {
    EndsWith(Lower(filename), ".xml") && StartsWith(filename, typePath)
  }

  /** `get_type`: the files of the listing that are of the given type, in listing order. */
  function GetType(files: seq<string>, typePath: string): seq<string> {
    Filter(f => IsOfType(typePath, f), files)
  }

  lemma GetTypeSelects(files: seq<string>, typePath: string)
    ensures forall f :: f in GetType(files, typePath) <==>
      f in files && EndsWith(Lower(f), ".xml") && StartsWith(f, typePath)
    ensures IsSubsequence(GetType(files, typePath), files)
  {
    FilterIsSubsequence(f => IsOfType(typePath, f), files);
  }

  /** A quoted name ending in `xml"` is validated but never selected as a finding. */
  lemma QuotedNotSelected(f: string, typePath: string)
    requires EndsWith(Lower(f), "xml\"")
    ensures !IsOfType(typePath, f)
  {
    var l := Lower(f);
    assert l[|l| - 1] == '"';
  }

  /** Every selected file has an XML name, so it is one `validate_files` looks at. */
  lemma SelectedAreXml(files: seq<string>, typePath: string)
    ensures forall f :: f in GetType(files, typePath) ==> IsXmlName(f)
  {
  }

  /** No file is both a finding and a non-finding. */
  lemma {:induction false} TypesDisjoint(files: seq<string>)
    ensures forall f :: f in GetType(files, TYPE_PATHS[0]) ==> f !in GetType(files, TYPE_PATHS[1])
  {
    forall f | f in GetType(files, TYPE_PATHS[0])
      ensures f !in GetType(files, TYPE_PATHS[1])
    {
      assert f[0] == 'F';
    }
  }

  /** The files selected for the given type paths, one type after another. */
  function Referenced(files: seq<string>, typePaths: seq<string>): seq<string>
    decreases |typePaths|
  {
    if typePaths == [] then []
    else Referenced(files, typePaths[..|typePaths| - 1]) + GetType(files, typePaths[|typePaths| - 1])
  }

  /** A file must be referenced exactly when it is of one of the given types. */
  lemma {:induction false} ReferencedSelects(files: seq<string>, typePaths: seq<string>, f: string)
    ensures f in Referenced(files, typePaths) <==> f in files && exists t :: t in typePaths && IsOfType(t, f)
    decreases |typePaths|
  {
    if typePaths != [] {
      var init, last := typePaths[..|typePaths| - 1], typePaths[|typePaths| - 1];
      ReferencedSelects(files, init, f);
      assert typePaths == init + [last];
    }
  }

  /** The referenced files whose path does not occur anywhere in the report text. */
  function Missing(reportText: string, items: seq<string>): seq<string> {
    Filter(f => !Contains(reportText, f), items)
  }

  lemma MissingSnoc(reportText: string, items: seq<string>, item: string)
    ensures Missing(reportText, items + [item]) ==
      Missing(reportText, items) + if Contains(reportText, item) then [] else [item]
  {
    FilterSnoc(f => !Contains(reportText, f), items, item);
  }

  lemma MissingNone(reportText: string, items: seq<string>)
    ensures Missing(reportText, items) == [] <==> forall f :: f in items ==> Contains(reportText, f)
  {
    var r := Missing(reportText, items);
    if r != [] {
      assert r[0] in r;
    }
  }

  /** The verdict `cross_check_files` promises: the report text contains every referenced path. */
  ghost predicate CrossReferenced(files: seq<string>, reportText: string) {
    forall f :: f in Referenced(files, TYPE_PATHS) ==> Contains(reportText, f)
  }

  /**
   * `cross_check_files`: for each type in turn, every selected path is looked up literally in
   * the report text; a miss does not stop the scan, so `missing` lists every unreferenced path,
   * in the order they were reported.
   */
  method CrossCheckFiles(files: seq<string>, reportText: string) returns (result: bool, missing: seq<string>)
    ensures missing == Missing(reportText, Referenced(files, TYPE_PATHS))
    ensures result <==> missing == []
    ensures result <==> CrossReferenced(files, reportText)
  {
    result := true;
    missing := [];
    ghost var done: seq<string> := [];
    for t := 0 to |TYPE_PATHS|
      invariant done == Referenced(files, TYPE_PATHS[..t])
      invariant missing == Missing(reportText, done)
      invariant result <==> missing == []
    {
      var items := GetType(files, TYPE_PATHS[t]);
      assert done + items[..0] == done;
      for j := 0 to |items|
        invariant missing == Missing(reportText, done + items[..j])
        invariant result <==> missing == []
      {
        var item := items[j];
        assert done + items[..j + 1] == (done + items[..j]) + [item];
        MissingSnoc(reportText, done + items[..j], item);
        if Find(reportText, item) == -1 {
          result := false;
          missing := missing + [item];
        }
      }
      assert items[..|items|] == items;
      assert TYPE_PATHS[..t + 1][..t] == TYPE_PATHS[..t];
      done := done + items;
    }
    assert TYPE_PATHS[..|TYPE_PATHS|] == TYPE_PATHS;
    MissingNone(reportText, done);
  }

  /** A finding or non-finding whose path the report never mentions fails the cross-check. */
  lemma UnreferencedFindingFails(files: seq<string>, reportText: string, t: string, f: string)
    requires f in files && t in TYPE_PATHS && IsOfType(t, f) && !Contains(reportText, f)
    ensures !CrossReferenced(files, reportText)
  {
    ReferencedSelects(files, TYPE_PATHS, f);
  }

  // ---------------------------------------------------------------------------------------
  // The keyword search over the parsed report

  /** An element of the parsed report: its text before the first child and its tail after it. */
  datatype Node = Node(tag: string, attrib: map<string, string>, text: Option<string>,
                       tail: Option<string>, children: seq<Node>)

  /** `Element.iter()`: the element itself, then each child's subtree, in document order. */
  function Iter(n: Node): seq<Node>
    decreases n, 1
  {
    [n] + IterAll(n.children)
  }

  function IterAll(ns: seq<Node>): seq<Node>
    decreases ns, 0
  {
    if ns == [] then [] else Iter(ns[0]) + IterAll(ns[1..])
  }

  /** The test `find_keyword` applies to one element: non-empty text that contains the keyword. */
  predicate HasKeyword(n: Node, keyword: string) {
    n.text.Some? && n.text.value != "" && Contains(n.text.value, keyword)
  }

  /** The elements `find_keyword` reports, in the order it visits them. */
  function KeywordNodes(ns: seq<Node>, keyword: string): seq<Node> {
    Filter(n => HasKeyword(n, keyword), ns)
  }

  /** The tree-shaped reading of the check: no element, at any depth, has the keyword in its text. */
  predicate Clean(n: Node, keyword: string)
    decreases n
  {
    !HasKeyword(n, keyword) && forall i :: 0 <= i < |n.children| ==> Clean(n.children[i], keyword)
  }

  predicate NoHits(ns: seq<Node>, keyword: string) {
    forall j :: 0 <= j < |ns| ==> !HasKeyword(ns[j], keyword)
  }

  lemma NoHitsIffNoneReported(ns: seq<Node>, keyword: string)
    ensures KeywordNodes(ns, keyword) == [] <==> NoHits(ns, keyword)
  {
    var r := KeywordNodes(ns, keyword);
    if r != [] {
      assert r[0] in r;
    }
    if !NoHits(ns, keyword) {
      var j :| 0 <= j < |ns| && HasKeyword(ns[j], keyword);
      assert ns[j] in r;
    }
  }

  lemma NoHitsAppend(a: seq<Node>, b: seq<Node>, keyword: string)
    ensures NoHits(a + b, keyword) <==> NoHits(a, keyword) && NoHits(b, keyword)
  {
    if NoHits(a, keyword) && NoHits(b, keyword) {
      forall j | 0 <= j < |a + b| ensures !HasKeyword((a + b)[j], keyword) {
        if j >= |a| { assert (a + b)[j] == b[j - |a|]; }
      }
    }
    if NoHits(a + b, keyword) {
      forall j | 0 <= j < |a| ensures !HasKeyword(a[j], keyword) {
        assert (a + b)[j] == a[j];
      }
      forall j | 0 <= j < |b| ensures !HasKeyword(b[j], keyword) {
        assert (a + b)[|a| + j] == b[j];
      }
    }
  }

  /** The pre-order walk visits exactly the elements of the tree, root included. */
  lemma {:induction false} CleanIffNoHits(n: Node, keyword: string)
    ensures Clean(n, keyword) <==> NoHits(Iter(n), keyword)
    decreases n, 1
  {
    CleanAllIffNoHits(n.children, keyword);
    NoHitsAppend([n], IterAll(n.children), keyword);
    assert Iter(n) == [n] + IterAll(n.children);
    assert [n][0] == n;
  }

  lemma {:induction false} CleanAllIffNoHits(ns: seq<Node>, keyword: string)
    ensures (forall i :: 0 <= i < |ns| ==> Clean(ns[i], keyword)) <==> NoHits(IterAll(ns), keyword)
    decreases ns, 0
  {
    if ns != [] {
      CleanIffNoHits(ns[0], keyword);
      CleanAllIffNoHits(ns[1..], keyword);
      NoHitsAppend(Iter(ns[0]), IterAll(ns[1..]), keyword);
      assert forall i :: 1 <= i < |ns| ==> ns[i] == ns[1..][i - 1];
    }
  }

  /**
   * `find_keyword`: walks every element in pre-order, root included, and fails on each one whose
   * text is non-empty and contains the keyword (case-sensitively). `hits` are the elements reported.
   */
  method FindKeyword(tree: Node, keyword: string) returns (result: bool, hits: seq<Node>)
    ensures hits == KeywordNodes(Iter(tree), keyword)
    ensures result <==> hits == []
    ensures result <==> Clean(tree, keyword)
  {
    var nodes := Iter(tree);
    result := true;
    hits := [];
    for i := 0 to |nodes|
      invariant hits == KeywordNodes(nodes[..i], keyword)
      invariant result <==> hits == []
    {
      var tag := nodes[i];
      assert nodes[..i + 1] == nodes[..i] + [tag];
      FilterSnoc(n => HasKeyword(n, keyword), nodes[..i], tag);
      if tag.text.Some? && tag.text.value != "" {
        if Contains(tag.text.value, keyword) {
          result := false;
          hits := hits + [tag];
        }
      }
    }
    assert nodes[..|nodes|] == nodes;
    CleanIffNoHits(tree, keyword);
    NoHitsIffNoneReported(nodes, keyword);
  }

  /** The element with attributes and tail text removed, at every depth. */
  function Bare(n: Node): Node
    decreases n, 1
  {
    Node(n.tag, map[], n.text, None, BareAll(n.children))
  }

  function BareAll(ns: seq<Node>): (r: seq<Node>)
    ensures |r| == |ns|
    decreases ns, 0
  {
    if ns == [] then [] else [Bare(ns[0])] + BareAll(ns[1..])
  }

  /** Neither attributes nor tail text are searched: only element text decides the keyword check. */
  lemma {:induction false} TailAndAttributesIgnored(n: Node, keyword: string)
    ensures Clean(Bare(n), keyword) <==> Clean(n, keyword)
    decreases n, 1
  {
    TailAndAttributesIgnoredAll(n.children, keyword);
  }

  lemma {:induction false} TailAndAttributesIgnoredAll(ns: seq<Node>, keyword: string)
    ensures forall i :: 0 <= i < |ns| ==> (Clean(BareAll(ns)[i], keyword) <==> Clean(ns[i], keyword))
    decreases ns, 0
  {
    if ns != [] {
      TailAndAttributesIgnored(ns[0], keyword);
      TailAndAttributesIgnoredAll(ns[1..], keyword);
      forall i | 1 <= i < |ns|
        ensures Clean(BareAll(ns)[i], keyword) <==> Clean(ns[i], keyword)
      {
        assert BareAll(ns)[i] == BareAll(ns[1..])[i - 1];
        assert ns[i] == ns[1..][i - 1];
      }
    }
  }

  // ---------------------------------------------------------------------------------------
  // main

  /** What `main` found: each check's verdict, whether a build was attempted, and the overall result. */
  datatype Verdict = Verdict(keywordOk: bool, crossOk: bool, xmlOk: bool, buildRan: bool, result: bool)

  /**
   * `main`: the keyword check, then the cross-check, then XML validation of every listed file.
   * Only the keyword and cross-checks clear the overall result; a failed XML validation is
   * reported but does not. The build (`validate_report`, whose outcome is `buildOk`) runs only
   * when validation succeeded and `docbuilder` is set.
   */
  method RunAllChecks(files: seq<string>, reportText: string, tree: Node, validXml: string -> bool,
              docbuilder: bool, buildOk: bool)
    returns (v: Verdict)
    ensures v.keywordOk <==> Clean(tree, KEYWORD)
    ensures v.crossOk <==> CrossReferenced(files, reportText)
    ensures v.xmlOk <==> AllValid(files, validXml)
    ensures v.buildRan <==> docbuilder && v.xmlOk
    ensures v.result <==> v.keywordOk && v.crossOk && (v.buildRan ==> buildOk)
    ensures !docbuilder ==> (v.result <==> Clean(tree, KEYWORD) && CrossReferenced(files, reportText))
  {
    var result := true;
    var keywordOk, _ := FindKeyword(tree, KEYWORD);
    if !keywordOk {
      result := false;
    }
    var crossOk, _ := CrossCheckFiles(files, reportText);
    if !crossOk {
      result := false;
    }
    var buildRan := false;
    var xmlOk, _ := ValidateFiles(files, validXml);
    if xmlOk {
      if docbuilder {
        buildRan := true;
        result := buildOk && result;
      }
    }
    v := Verdict(keywordOk, crossOk, xmlOk, buildRan, result);
  }
}
