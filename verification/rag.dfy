/** Document loading and retrieval formatting from `utils/rag.py`.
    The PDF and text loaders and the vector index are calls into libraries;
    they appear here as function parameters. */
module Rag {
  import opened Results
  import opened Text

  /** Number of hits the chat turn asks the index for (`TOP_K`). */
  const TopK: nat := 4

  /** Python's `str.rfind(c)`: the last index holding `c`, or -1. */
  function RFind(s: string, c: char): (r: int)
    ensures -1 <= r < |s|
    ensures r >= 0 ==> s[r] == c
    ensures forall j :: r < j < |s| ==> s[j] != c
  {
    if |s| == 0 then -1
    else if s[|s| - 1] == c then |s| - 1
    else RFind(s[..|s| - 1], c)
  }

  /** The last path component (everything after the last '/'). */
  function Basename(p: string): (b: string)
    ensures |b| <= |p| && p[|p| - |b|..] == b
    ensures forall i :: 0 <= i < |b| ==> b[i] != '/'
    ensures |b| < |p| ==> p[|p| - |b| - 1] == '/'
  {
    p[RFind(p, '/') + 1..]
  }

  /** Every character of `p` from `lo` up to `hi` is a dot. */
  predicate OnlyDots(p: string, lo: int, hi: int)
    requires 0 <= lo && hi <= |p|
  {
    forall i :: lo <= i < hi ==> p[i] == '.'
  }

  /** A file name has an extension when some dot follows a character other
      than a dot; leading dots alone (".bashrc", "..") do not make one. */
  ghost predicate HasExtension(b: string) {
    exists i, j :: DotAfterNonDot(b, i, j)
  }

  /** Position `j` holds a dot and the earlier position `i` does not. */
  ghost predicate DotAfterNonDot(b: string, i: int, j: int) {
    0 <= i < j < |b| && b[i] != '.' && b[j] == '.'
  }

  /** If `c` is nowhere from index `k` on, the suffix from `k` lacks `c`. */
  lemma AbsentAfter(s: string, c: char, k: nat)
    requires k <= |s|
    requires forall j :: k <= j < |s| ==> s[j] != c
    ensures c !in s[k..]
  {
  }

  /** `os.path.splitext` on POSIX paths: the extension starts at the last dot
      of the last component, unless only dots precede that dot there. */
  function SplitExt(p: string): (r: (string, string))
    ensures r.0 + r.1 == p
    ensures r.1 != "" ==> r.1[0] == '.' && '.' !in r.1[1..] && '/' !in r.1
  {
    var sep := RFind(p, '/');
    var dot := RFind(p, '.');
    if dot > sep && !OnlyDots(p, sep + 1, dot) then
      AbsentAfter(p, '.', dot + 1);
      AbsentAfter(p, '/', dot);
      assert p[dot..][1..] == p[dot + 1..];
      (p[..dot], p[dot..])
    else (p, "")
  }

  /** A range that is not all dots holds a non-dot. */
  lemma NonDotWitness(p: string, lo: int, hi: int) returns (k: int)
    requires 0 <= lo <= hi <= |p| && !OnlyDots(p, lo, hi)
    ensures lo <= k < hi && p[k] != '.'
  {
    k :| lo <= k < hi && p[k] != '.';
  }

  /** A non-dot before a dot, both after `lo`, gives the suffix from `lo`
      an extension. */
  lemma SuffixExtension(p: string, lo: int, k: int, dot: int)
    requires 0 <= lo <= k < dot < |p| && p[k] != '.' && p[dot] == '.'
    ensures HasExtension(p[lo..])
  {
    var b := p[lo..];
    assert b[k - lo] == p[k] && b[dot - lo] == p[dot];
    assert DotAfterNonDot(b, k - lo, dot - lo);
  }

  /** A non-dot before the last dot, inside the name, gives an extension. */
  lemma NonDotGivesExtension(p: string, sep: int, dot: int)
    requires -1 <= sep < dot < |p|
    requires p[dot] == '.' && !OnlyDots(p, sep + 1, dot)
    ensures HasExtension(p[sep + 1..])
  {
    var k := NonDotWitness(p, sep + 1, dot);
    SuffixExtension(p, sep + 1, k, dot);
  }

  /** An extension in the name puts the last dot inside it after a non-dot. */
  lemma {:induction false} ExtensionGivesNonDot(p: string, sep: int, dot: int)
    requires -1 <= sep < |p| && -1 <= dot < |p|
    requires forall m :: dot < m < |p| ==> p[m] != '.'
    requires HasExtension(p[sep + 1..])
    ensures dot > sep && !OnlyDots(p, sep + 1, dot)
  {
    var b := p[sep + 1..];
    var i, j :| DotAfterNonDot(b, i, j);
    assert b[i] == p[sep + 1 + i] && b[j] == p[sep + 1 + j];
    assert sep + 1 + j <= dot;
  }

  /** With `dot` the last dot of `p`, the part of `p` after index `sep` has
      an extension exactly when that dot lies in it after a non-dot. */
  lemma {:induction false} NameHasExtension(p: string, sep: int, dot: int)
    requires -1 <= sep < |p| && -1 <= dot < |p|
    requires dot >= 0 ==> p[dot] == '.'
    requires forall j :: dot < j < |p| ==> p[j] != '.'
    ensures HasExtension(p[sep + 1..]) <==> dot > sep && !OnlyDots(p, sep + 1, dot)
  {
    if dot > sep && !OnlyDots(p, sep + 1, dot) {
      NonDotGivesExtension(p, sep, dot);
    }
    if HasExtension(p[sep + 1..]) {
      ExtensionGivesNonDot(p, sep, dot);
    }
  }

  /** The extension is non-empty exactly when the file name has one. */
  lemma SplitExtIff(p: string)
    ensures SplitExt(p).1 != "" <==> HasExtension(Basename(p))
  {
    var sep := RFind(p, '/');
    var dot := RFind(p, '.');
    assert Basename(p) == p[sep + 1..];
    NameHasExtension(p, sep, dot);
  }

  /** The extension as `load_docs_from_paths` compares it. */
  function ExtOf(p: string): string {
    Lower(SplitExt(p).1)
  }

  datatype LoaderKind = PdfLoader | TextLoader | TextFallback

  /** Which loader a path goes to. */
  function KindOf(p: string): (k: LoaderKind)
    ensures k == PdfLoader ==> Lower(SplitExt(p).1) == ".pdf"
    ensures k == TextLoader ==> Lower(SplitExt(p).1) == ".txt" || Lower(SplitExt(p).1) == ".md"
    ensures k != TextFallback ==> SplitExt(p).1 != ""
  {
    var ext := ExtOf(p);
    if ext == ".pdf" then PdfLoader
    else if ext == ".txt" || ext == ".md" then TextLoader
    else TextFallback
  }

  /** Only a file name with a real extension reaches the PDF or text
      loader: names like ".pdf" or "notes" go to the fallback. */
  lemma DispatchNeedsExtension(p: string)
    ensures KindOf(p) != TextFallback ==> HasExtension(Basename(p))
  {
    SplitExtIff(p);
  }

  /** Dispatch ignores case: each branch is taken exactly for the extensions
      that spell its name in any mix of upper and lower case. */
  lemma KindOfIgnoresCase(p: string)
    ensures KindOf(p) == PdfLoader <==> MatchesIgnoringCase(SplitExt(p).1, ".pdf")
    ensures KindOf(p) == TextLoader <==>
              MatchesIgnoringCase(SplitExt(p).1, ".txt") || MatchesIgnoringCase(SplitExt(p).1, ".md")
  {
    var e := SplitExt(p).1;
    LowerEqIff(e, ".pdf");
    LowerEqIff(e, ".txt");
    LowerEqIff(e, ".md");
  }

  /** Two paths whose extensions differ only in case go to the same loader. */
  lemma SameKindUpToCase(p: string, q: string)
    requires |SplitExt(p).1| == |SplitExt(q).1|
    requires forall i :: 0 <= i < |SplitExt(p).1| ==>
               LowerChar(SplitExt(p).1[i]) == LowerChar(SplitExt(q).1[i])
    ensures KindOf(p) == KindOf(q)
  {
    var a, b := SplitExt(p).1, SplitExt(q).1;
    assert forall i :: 0 <= i < |a| ==> Lower(a)[i] == Lower(b)[i];
    assert Lower(a) == Lower(b);
  }

  /** `RFind` finds the occurrence that no later one follows. */
  lemma RFindAt(s: string, c: char, k: int)
    requires -1 <= k < |s|
    requires k >= 0 ==> s[k] == c
    requires forall j :: k < j < |s| ==> s[j] != c
    ensures RFind(s, c) == k
  {
  }

  /** Examples: upper-case extensions take the PDF and text branches. */
  lemma LoaderExamples()
    ensures KindOf("docs/report.PDF") == PdfLoader
    ensures KindOf("notes.Md") == TextLoader
  {
    var p := "docs/report.PDF";
    RFindAt(p, '.', 11);
    RFindAt(p, '/', 4);
    assert p[5] == 'r';
    assert SplitExt(p).1 == ".PDF";
    assert Lower(".PDF") == ".pdf";
    var q := "notes.Md";
    RFindAt(q, '.', 5);
    RFindAt(q, '/', -1);
    assert q[0] == 'n';
    assert Lower(".Md") == ".md";
  }

  /** Examples: a leading-dot file name and a dotted directory give no
      extension. */
  lemma SplitExtExamples()
    ensures SplitExt(".bashrc") == (".bashrc", "")
    ensures SplitExt("v1.2/README") == ("v1.2/README", "")
  {
    RFindAt(".bashrc", '.', 0);
    RFindAt(".bashrc", '/', -1);
    var v := "v1.2/README";
    RFindAt(v, '/', 4);
    RFindAt(v, '.', 2);
  }

  /** A loaded document: one page of a PDF or the whole of a text file. */
  datatype Document = Document(pageContent: string, source: string)

  /** A document loader applied to a path; it may raise. */
  type Loader = string -> Result<seq<Document>>

  /** What one path adds: the PDF and text branches pass a failure on, the
      fallback branch swallows it and adds nothing. */
  function LoadPath(p: string, pdf: Loader, text: Loader): (r: Result<seq<Document>>)
    ensures KindOf(p) == PdfLoader ==> r == pdf(p)
    ensures KindOf(p) == TextLoader ==> r == text(p)
    ensures KindOf(p) == TextFallback ==> r == Success(text(p).GetOr([]))
    ensures r.Failure? ==> KindOf(p) != TextFallback
  {
    match KindOf(p)
    case PdfLoader => pdf(p)
    case TextLoader => text(p)
    case TextFallback => Success(text(p).GetOr([]))
  }

  /** The documents of every path in order, a failed path adding none. */
  function Gathered(paths: seq<string>, pdf: Loader, text: Loader): seq<Document>
    decreases |paths|
  {
    if |paths| == 0 then []
    else LoadPath(paths[0], pdf, text).GetOr([]) + Gathered(paths[1..], pdf, text)
  }

  /** Runs two loads in turn: the first failure wins, and the documents of
      the second follow those of the first. */
  function AndThen(ra: Result<seq<Document>>, rb: Result<seq<Document>>): Result<seq<Document>> {
    match ra
    case Failure(e) => Failure(e)
    case Success(da) =>
      match rb
      case Failure(e) => Failure(e)
      case Success(db) => Success(da + db)
  }

  /** `load_docs_from_paths`: loads each path in turn and extends the result;
      a failure on a PDF, TXT or MD path aborts the whole call (which error
      it raises is `StrictFailurePropagates`). */
  function LoadDocsFromPaths(paths: seq<string>, pdf: Loader, text: Loader): (r: Result<seq<Document>>)
    ensures r.Failure? <==> exists i :: 0 <= i < |paths| && LoadPath(paths[i], pdf, text).Failure?
    ensures r.Success? ==> r.value == Gathered(paths, pdf, text)
    decreases |paths|
  {
    if |paths| == 0 then Success([])
    else
      var rest := paths[1..];
      assert forall j :: 0 <= j < |rest| ==> rest[j] == paths[j + 1];
      assert forall i :: 0 < i < |paths| ==> paths[i] == rest[i - 1];
      AndThen(LoadPath(paths[0], pdf, text), LoadDocsFromPaths(rest, pdf, text))
  }

  /** Gathering a list of paths is gathering its two halves in turn. */
  lemma {:induction false} GatheredAppend(a: seq<string>, b: seq<string>, pdf: Loader, text: Loader)
    ensures Gathered(a + b, pdf, text) == Gathered(a, pdf, text) + Gathered(b, pdf, text)
    decreases |a|
  {
    if |a| > 0 {
      assert (a + b)[1..] == a[1..] + b;
      GatheredAppend(a[1..], b, pdf, text);
    } else {
      assert a + b == b;
    }
  }

  /** Running loads in turn does not depend on how they are grouped. */
  lemma AndThenAssoc(x: Result<seq<Document>>, y: Result<seq<Document>>, z: Result<seq<Document>>)
    ensures AndThen(x, AndThen(y, z)) == AndThen(AndThen(x, y), z)
  {
    if x.Success? && y.Success? && z.Success? {
      assert x.value + (y.value + z.value) == (x.value + y.value) + z.value;
    }
  }

  /** Loading `a + b` loads `a` first; if that raised, `b` is never reached,
      otherwise the documents of `b` follow those of `a`. */
  lemma {:induction false} LoadDocsAppend(a: seq<string>, b: seq<string>, pdf: Loader, text: Loader)
    ensures LoadDocsFromPaths(a + b, pdf, text) ==
              AndThen(LoadDocsFromPaths(a, pdf, text), LoadDocsFromPaths(b, pdf, text))
    decreases |a|
  {
    if |a| == 0 {
      assert a + b == b;
      match LoadDocsFromPaths(b, pdf, text)
      case Failure(e) =>
      case Success(db) => assert [] + db == db;
    } else {
      assert (a + b)[0] == a[0];
      assert (a + b)[1..] == a[1..] + b;
      LoadDocsAppend(a[1..], b, pdf, text);
      AndThenAssoc(LoadPath(a[0], pdf, text), LoadDocsFromPaths(a[1..], pdf, text), LoadDocsFromPaths(b, pdf, text));
    }
  }

  lemma SplitAt(paths: seq<string>, i: nat)
    requires i < |paths|
    ensures paths == paths[..i] + ([paths[i]] + paths[i + 1..])
  {
    assert paths[i..] == [paths[i]] + paths[i + 1..];
    assert paths == paths[..i] + paths[i..];
  }

  /** A path that adds no documents and does not fail can be dropped. */
  lemma SkipEmptyPath(x: string, post: seq<string>, pdf: Loader, text: Loader)
    requires LoadPath(x, pdf, text) == Success([])
    ensures LoadDocsFromPaths([x] + post, pdf, text) == LoadDocsFromPaths(post, pdf, text)
  {
    assert ([x] + post)[0] == x && ([x] + post)[1..] == post;
    match LoadDocsFromPaths(post, pdf, text)
    case Failure(e) =>
    case Success(d) => assert [] + d == d;
  }

  /** A path with an unrecognised extension whose text load raises is
      skipped: the call behaves as if the path were not in the list. */
  lemma UnknownFailureSkipped(paths: seq<string>, i: nat, pdf: Loader, text: Loader)
    requires i < |paths|
    requires KindOf(paths[i]) == TextFallback && text(paths[i]).Failure?
    ensures LoadDocsFromPaths(paths, pdf, text) ==
              LoadDocsFromPaths(paths[..i] + paths[i + 1..], pdf, text)
  {
    var pre, post := paths[..i], paths[i + 1..];
    var rest := [paths[i]] + post;
    SplitAt(paths, i);
    assert LoadPath(paths[i], pdf, text) == Success([]);
    SkipEmptyPath(paths[i], post, pdf, text);
    LoadDocsAppend(pre, [paths[i]] + post, pdf, text);
    LoadDocsAppend(pre, post, pdf, text);
  }

  /** A raising PDF, TXT or MD load makes the whole call raise with its error
      when every earlier path loaded. */
  lemma {:induction false} StrictFailurePropagates(paths: seq<string>, i: nat, pdf: Loader, text: Loader)
    requires i < |paths|
    requires KindOf(paths[i]) != TextFallback
    requires LoadPath(paths[i], pdf, text).Failure?
    requires forall j :: 0 <= j < i ==> LoadPath(paths[j], pdf, text).Success?
    ensures LoadDocsFromPaths(paths, pdf, text) == Failure(LoadPath(paths[i], pdf, text).error)
    decreases i
  {
    if i > 0 {
      var rest := paths[1..];
      assert forall j :: 0 <= j < i - 1 ==> rest[j] == paths[j + 1];
      assert LoadPath(paths[0], pdf, text).Success?;
      StrictFailurePropagates(rest, i - 1, pdf, text);
    }
  }

  /** The entry for the hit at 0-based position `i`, labelled `[i+1]`. */
  function NumberedHit(i: nat, content: string): string {
    "[" + NatToString(i + 1) + "] " + content
  }

  /** The numbered hits, joined by blank lines. */
  function FormatHits(hits: seq<string>): (r: string)
    ensures r == "" <==> |hits| == 0
    ensures |hits| > 0 ==> "[1] " + hits[0] <= r
  {
    var entries := HitEntries(hits);
    assert NatToString(1) == "1";
    assert |hits| > 0 ==> entries[0] == "[1] " + hits[0];
    JoinEmptyIff("\n\n", entries);
    Join("\n\n", entries)
  }

  /** A single hit is rendered alone, labelled `[1]`. */
  lemma FormatHitsSingle(c: string)
    ensures FormatHits([c]) == "[1] " + c
  {
    assert NumberedHit(0, c) == "[" + NatToString(1) + "] " + c == "[1] " + c;
    assert HitEntries([c]) == [NumberedHit(0, c)];
  }

  /** A vector index, seen through its similarity search: the page contents
      of the `k` nearest chunks to a query, nearest first. The search embeds
      the query through a remote embedding service, so it may raise. */
  type Index = (string, nat) -> Result<seq<string>>

  /** `relevant_context`: empty when no index was built, otherwise the
      numbered hits for `query`; a raising similarity search propagates. */
  function RelevantContext(vs: Option<Index>, query: string, k: nat): (r: Result<string>)
    ensures vs.None? ==> r == Success("")
    ensures vs.Some? ==> (r.Failure? <==> vs.value(query, k).Failure?)
    ensures vs.Some? && r.Failure? ==> r.error == vs.value(query, k).error
    ensures vs.Some? && r.Success? ==> r.value == FormatHits(vs.value(query, k).value)
    ensures vs.Some? && r.Success? ==> (r.value == "" <==> |vs.value(query, k).value| == 0)
  {
    match vs
    case None => Success("")
    case Some(search) =>
      match search(query, k)
      case Failure(e) => Failure(e)
      case Success(hits) => Success(FormatHits(hits))
  }

  /** The numbered entries of a list of hits. */
  function HitEntries(hits: seq<string>): (es: seq<string>)
    ensures |es| == |hits|
  {
    seq(|hits|, i requires 0 <= i < |hits| => NumberedHit(i, hits[i]))
  }

  lemma HitEntriesSnoc(hits: seq<string>, c: string)
    ensures HitEntries(hits + [c]) == HitEntries(hits) + [NumberedHit(|hits|, c)]
  {
    var all := hits + [c];
    forall i | 0 <= i < |hits|
      ensures HitEntries(all)[i] == HitEntries(hits)[i]
    {
      assert all[i] == hits[i];
    }
  }

  /** One more hit adds a blank line and that hit, numbered one past the
      hits before it: numbering is 1-based and follows result order. */
  lemma FormatHitsSnoc(hits: seq<string>, c: string)
    requires |hits| > 0
    ensures FormatHits(hits + [c]) ==
              FormatHits(hits) + "\n\n[" + NatToString(|hits| + 1) + "] " + c
  {
    var last := NumberedHit(|hits|, c);
    HitEntriesSnoc(hits, c);
    JoinSnoc("\n\n", HitEntries(hits), last);
    assert FormatHits(hits + [c]) == FormatHits(hits) + "\n\n" + last;
    Regroup(FormatHits(hits), NatToString(|hits| + 1), c);
  }

  lemma Regroup(a: string, n: string, c: string)
    ensures a + "\n\n" + ("[" + n + "] " + c) == a + "\n\n[" + n + "] " + c
  {
  }
}
