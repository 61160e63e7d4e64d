/** The per-issue helpers of gather_issue_data.py: the guessed kind, CPython
    versions and build configurations of an issue, the list of pull requests
    linked from its timeline, its body snippet, and the CSV row built from
    them. The GitHub client that supplies the issues is not modelled: an
    issue arrives as a value. */
module IssueData {
  import opened Wrappers
  import opened Text
  import opened Counters

  // ------------------------------------------------------------ sorting

  /** `sorted(...)` order on strings, without duplicates. */
  predicate StrictlySorted(s: seq<string>) {
    forall i, j :: 0 <= i < j < |s| ==> LexLess(s[i], s[j])
  }

  function InsertString(x: string, s: seq<string>): seq<string> {
    if s == [] || LexLess(x, s[0]) then [x] + s
    else [s[0]] + InsertString(x, s[1..])
  }

  /** `sorted(list(...))` of a duplicate-free list. */
  function SortStrings(xs: seq<string>): seq<string> {
    if xs == [] then [] else InsertString(xs[0], SortStrings(xs[1..]))
  }

  lemma {:induction false} InsertStringCorrect(x: string, s: seq<string>)
    requires StrictlySorted(s) && x !in s
    ensures StrictlySorted(InsertString(x, s))
    ensures multiset(InsertString(x, s)) == multiset(s) + multiset{x}
  {
    if s == [] || LexLess(x, s[0]) {
      assert InsertString(x, s) == [x] + s;
      forall j | 0 < j < |s| ensures LexLess(x, s[j]) {
        LexTransitive(x, s[0], s[j]);
      }
      ConsSorted(x, s);
    } else {
      var t := InsertString(x, s[1..]);
      assert InsertString(x, s) == [s[0]] + t;
      assert s == [s[0]] + s[1..];
      LexTotal(x, s[0]);
      InsertStringCorrect(x, s[1..]);
      forall j | 0 <= j < |s[1..]| ensures LexLess(s[0], s[1..][j]) {
        assert s[1..][j] == s[j + 1];
      }
      AllAbove(s[0], t, s[1..], x);
      ConsSorted(s[0], t);
    }
  }

  /** A string below every element of a sorted list heads it. */
  lemma ConsSorted(h: string, t: seq<string>)
    requires StrictlySorted(t) && forall j :: 0 <= j < |t| ==> LexLess(h, t[j])
    ensures StrictlySorted([h] + t)
  {
    var r := [h] + t;
    forall i, j | 0 <= i < j < |r| ensures LexLess(r[i], r[j]) {
      assert r[j] == t[j - 1];
      if i > 0 { assert r[i] == t[i - 1]; }
    }
  }

  /** A permutation of `s` and `x` lies above every bound of `s` and `x`. */
  lemma AllAbove(lo: string, r: seq<string>, s: seq<string>, x: string)
    requires multiset(r) == multiset(s) + multiset{x}
    requires LexLess(lo, x) && forall j :: 0 <= j < |s| ==> LexLess(lo, s[j])
    ensures forall j :: 0 <= j < |r| ==> LexLess(lo, r[j])
  {
    forall j | 0 <= j < |r| ensures LexLess(lo, r[j]) {
      assert r[j] in multiset(s) + multiset{x};
      if r[j] != x {
        var k :| 0 <= k < |s| && s[k] == r[j];
      }
    }
  }

  /** Sorting a duplicate-free list yields the same elements in strictly
      ascending order. */
  lemma {:induction false} SortStringsCorrect(xs: seq<string>)
    requires NoDup(xs)
    ensures StrictlySorted(SortStrings(xs))
    ensures multiset(SortStrings(xs)) == multiset(xs)
  {
    if xs != [] {
      assert xs == [xs[0]] + xs[1..];
      assert NoDup(xs[1..]);
      SortStringsCorrect(xs[1..]);
      assert xs[0] !in multiset(xs[1..]);
      InsertStringCorrect(xs[0], SortStrings(xs[1..]));
    }
  }

  /** Two strictly ascending lists with the same elements are equal, so the
      sorted result only depends on which strings are present. */
  lemma {:induction false} SortedUnique(a: seq<string>, b: seq<string>)
    requires StrictlySorted(a) && StrictlySorted(b)
    requires forall x :: x in a <==> x in b
    ensures a == b
  {
    assert a != [] ==> a[0] in b;
    assert b != [] ==> b[0] in a;
    if a != [] && b != [] {
      assert a[0] in b && b[0] in a;
      assert a[0] == b[0] by {
        if a[0] != b[0] {
          var k :| 0 <= k < |b| && b[k] == a[0];
          var m :| 0 <= m < |a| && a[m] == b[0];
          LexAsymmetric(a[0], b[0]);
        }
      }
      assert a == [a[0]] + a[1..] && b == [b[0]] + b[1..];
      forall x ensures x in a[1..] <==> x in b[1..] {
        if x in a[1..] {
          var i :| 0 <= i < |a[1..]| && a[1..][i] == x;
          assert LexLess(a[0], a[i + 1]);
          LexIrreflexive(x);
          assert x in b && x != b[0];
        }
        if x in b[1..] {
          var i :| 0 <= i < |b[1..]| && b[1..][i] == x;
          assert LexLess(b[0], b[i + 1]);
          LexIrreflexive(x);
          assert x in a && x != a[0];
        }
      }
      SortedUnique(a[1..], b[1..]);
      assert a == [a[0]] + a[1..] && b == [b[0]] + b[1..];
    }
  }

  /** The sorted, duplicate-free form of any list. */
  lemma SortDedup(xs: seq<string>)
    ensures StrictlySorted(SortStrings(Dedup(xs)))
    ensures forall x :: x in SortStrings(Dedup(xs)) <==> x in xs
  {
    DedupElements(xs);
    SortStringsCorrect(Dedup(xs));
    forall x ensures x in SortStrings(Dedup(xs)) <==> x in xs {
      assert x in SortStrings(Dedup(xs)) <==> x in multiset(SortStrings(Dedup(xs)));
    }
  }

  // ------------------------------------------------------------ labels

  /** `k in {label.lower() for label in labels}` */
  predicate HasLabel(labels: seq<string>, k: string) {
    exists i :: 0 <= i < |labels| && Lower(labels[i]) == k
  }

  // ------------------------------------------------------------ kind

  const Kinds: seq<string> := ["Segfault/Crash", "Abort/AssertionError", "SystemError", "Fatal Python Error", ""]

  predicate CrashSignal(labels: seq<string>, t: string) {
    Contains(t, "segfault") || Contains(t, "segmentation fault") || Contains(t, "crash")
    || HasLabel(labels, "crash") || HasLabel(labels, "segfault")
  }

  predicate AbortSignal(labels: seq<string>, t: string) {
    Contains(t, "assertionerror") || Contains(t, "abort") || Contains(t, "assert")
    || HasLabel(labels, "assertionerror") || HasLabel(labels, "abort")
  }

  predicate SystemErrorSignal(labels: seq<string>, t: string) {
    Contains(t, "systemerror") || Contains(t, "system error") || HasLabel(labels, "systemerror")
  }

  predicate FatalSignal(labels: seq<string>, t: string) {
    Contains(t, "fatal python error") || Contains(t, "fatal error") || HasLabel(labels, "fatal-error")
  }

  /** `guess_kind_from_labels_title`: the first category whose keywords occur
      in the lower-cased title or whose label is present, or "" for none. */
  function GuessKind(labels: seq<string>, title: string): (kind: string)
    ensures kind in Kinds
  {
    var t := Lower(title);
    if CrashSignal(labels, t) then "Segfault/Crash"
    else if AbortSignal(labels, t) then "Abort/AssertionError"
    else if SystemErrorSignal(labels, t) then "SystemError"
    else if FatalSignal(labels, t) then "Fatal Python Error"
    else ""
  }

  function UpperAll(labels: seq<string>): (r: seq<string>)
    ensures |r| == |labels| && forall i :: 0 <= i < |labels| ==> r[i] == Upper(labels[i])
  {
    if labels == [] then [] else [Upper(labels[0])] + UpperAll(labels[1..])
  }

  /** The guess ignores the case of the title and of the labels. */
  lemma GuessKindIgnoresCase(labels: seq<string>, title: string)
    ensures GuessKind(labels, Upper(title)) == GuessKind(labels, title)
    ensures GuessKind(UpperAll(labels), title) == GuessKind(labels, title)
  {
    LowerOfUpper(title);
    var up := UpperAll(labels);
    forall i | 0 <= i < |labels| ensures Lower(up[i]) == Lower(labels[i]) {
      LowerOfUpper(labels[i]);
    }
    forall k ensures HasLabel(up, k) <==> HasLabel(labels, k) {
      if HasLabel(up, k) {
        var i :| 0 <= i < |up| && Lower(up[i]) == k;
        assert Lower(labels[i]) == k;
      }
      if HasLabel(labels, k) {
        var i :| 0 <= i < |labels| && Lower(labels[i]) == k;
        assert Lower(up[i]) == k;
      }
    }
  }

  /** Only which lower-cased labels occur matters, not their order or repetition. */
  lemma GuessKindLabelSet(a: seq<string>, b: seq<string>, title: string)
    requires forall k :: HasLabel(a, k) <==> HasLabel(b, k)
    ensures GuessKind(a, title) == GuessKind(b, title)
  {
  }

  /** The categories are tried in a fixed order: a crash keyword wins over
      every other keyword, and an abort keyword over the error categories. */
  lemma GuessKindPrecedence(labels: seq<string>, title: string)
    ensures CrashSignal(labels, Lower(title)) ==> GuessKind(labels, title) == "Segfault/Crash"
    ensures !CrashSignal(labels, Lower(title)) && AbortSignal(labels, Lower(title))
            ==> GuessKind(labels, title) == "Abort/AssertionError"
    ensures GuessKind(labels, title) == "" <==>
              !CrashSignal(labels, Lower(title)) && !AbortSignal(labels, Lower(title))
              && !SystemErrorSignal(labels, Lower(title)) && !FatalSignal(labels, Lower(title))
  {
  }

  /** Any title naming an assertion error also names an assertion, so the
      "assertionerror" keyword adds nothing to the "assert" one. */
  lemma AssertionErrorKeywordRedundant(t: string)
    requires Contains(t, "assertionerror")
    ensures Contains(t, "assert")
  {
    assert "assertionerror" == "assert" + "ionerror";
    ContainsPrefixOf(t, "assert", "ionerror");
  }

  // ------------------------------------------------------------ versions

  /** The version one label names, if any: a `version-`/`python-` label with
      both prefixes removed wherever they occur, or `3.<digits>` read from
      the first two dot-separated parts of a label containing "3.". */
  function VersionOf(name: string): (v: Option<string>)
    ensures v.Some? && !StartsWith(Lower(name), "version-") && !StartsWith(Lower(name), "python-")
            ==> |v.value| > 2 && v.value[..2] == "3." && IsDigits(v.value[2..])
  {
    var l := Lower(name);
    if StartsWith(l, "version-") || StartsWith(l, "python-") then
      Some(WithoutPrefixes(l))
    else if Contains(l, "3.") then
      var parts := Split(l, '.');
      if |parts| > 1 && parts[0] == "3" && IsDigits(parts[1]) then
        assert ("3." + parts[1])[2..] == parts[1];
        Some("3." + parts[1])
      else None
    else None
  }

  /** `.replace("version-", "").replace("python-", "")` */
  function WithoutPrefixes(l: string): string {
    Replace(Replace(l, "version-", ""), "python-", "")
  }

  /** The fallback rule read without `split`: `v` is `3.` followed by
      digits, and the lowered label is `v` itself or `v` followed by a dot. */
  predicate FallbackVersion(l: string, v: string) {
    |v| > 2 && v[..2] == "3." && IsDigits(v[2..]) && (l == v || StartsWith(l, v + "."))
  }

  /** Without a prefix, a label names version `v` exactly when it is `v` or
      starts with `v` and a dot, `v` being `3.` and digits: the version is
      the label's own first two dot-separated parts. */
  lemma VersionFallback(name: string, v: string)
    requires !StartsWith(Lower(name), "version-") && !StartsWith(Lower(name), "python-")
    ensures VersionOf(name) == Some(v) <==> FallbackVersion(Lower(name), v)
  {
    var l := Lower(name);
    if FallbackVersion(l, v) {
      FallbackParts(l, v);
      assert v == "3." + v[2..];
    }
    if VersionOf(name) == Some(v) {
      PartsFallback(l);
    }
  }

  lemma FallbackParts(l: string, v: string)
    requires FallbackVersion(l, v)
    ensures Contains(l, "3.")
    ensures |Split(l, '.')| > 1 && Split(l, '.')[0] == "3" && Split(l, '.')[1] == v[2..]
  {
    var d := v[2..];
    FallbackShape(l, v);
    SplitHead("3", '.', l[2..]);
    if l != v {
      SplitHead(d, '.', l[|v| + 1..]);
    }
  }

  /** The pieces of a label the fallback rule accepts. */
  lemma FallbackShape(l: string, v: string)
    requires FallbackVersion(l, v)
    ensures StartsWith(l, "3.") && l == "3" + "." + l[2..] && '.' !in v[2..]
    ensures l == v ==> l[2..] == v[2..]
    ensures l != v ==> |v| < |l| && l[2..] == v[2..] + "." + l[|v| + 1..]
  {
    var d := v[2..];
    assert forall i :: 0 <= i < |d| ==> d[i] != '.';
    assert l[..|v|] == v && v[..2] == "3.";
    assert l[..2] == "3.";
  }

  lemma PartsFallback(l: string)
    requires |Split(l, '.')| > 1 && Split(l, '.')[0] == "3" && IsDigits(Split(l, '.')[1])
    ensures FallbackVersion(l, "3." + Split(l, '.')[1])
  {
    JoinSplit(l, '.');
    JoinedFallback(Split(l, '.'));
  }

  /** Parts `3`, digits, ... rejoined with dots start with the version. */
  lemma JoinedFallback(parts: seq<string>)
    requires |parts| > 1 && parts[0] == "3" && IsDigits(parts[1])
    ensures FallbackVersion(Join(parts, "."), "3." + parts[1])
  {
    var l := Join(parts, ".");
    var v := "3." + parts[1];
    var rest := parts[1..];
    assert parts == [parts[0]] + rest && rest[0] == parts[1];
    JoinCons(parts[0], rest, ".");
    if |rest| > 1 {
      assert rest == [rest[0]] + rest[1..];
      JoinCons(rest[0], rest[1..], ".");
      var tail := Join(rest[1..], ".");
      assert l == v + "." + tail;
      PrefixStarts(v + ".", tail);
    }
    assert v[..2] == "3." && v[2..] == parts[1];
  }

  /** A label `version-V` or `python-V` names version `V` when `V` is lower
      case and holds neither prefix. */
  lemma VersionLabel(v: string)
    requires Lower(v) == v && !Contains(v, "version-") && !Contains(v, "python-")
    ensures VersionOf("version-" + v) == Some(v)
    ensures VersionOf("python-" + v) == Some(v)
  {
    VersionPrefixedLabel(v);
    PythonPrefixedLabel(v);
  }

  lemma VersionPrefixedLabel(v: string)
    requires Lower(v) == v && !Contains(v, "version-") && !Contains(v, "python-")
    ensures VersionOf("version-" + v) == Some(v)
  {
    PrefixesLower();
    PrefixedLower("version-", v);
    PrefixStarts("version-", v);
    VersionOfPrefixed("version-" + v);
    VersionPrefixRemoved(v);
  }

  lemma PythonPrefixedLabel(v: string)
    requires Lower(v) == v && !Contains(v, "version-") && !Contains(v, "python-")
    ensures VersionOf("python-" + v) == Some(v)
  {
    PrefixesLower();
    PrefixedLower("python-", v);
    PrefixStarts("python-", v);
    VersionOfPrefixed("python-" + v);
    PythonPrefixRemoved(v);
  }

  lemma PrefixesLower()
    ensures Lower("version-") == "version-" && Lower("python-") == "python-"
  {
  }

  lemma PrefixStarts(p: string, v: string)
    ensures StartsWith(p + v, p)
  {
    assert (p + v)[..|p|] == p;
  }

  lemma VersionPrefixRemoved(v: string)
    requires !Contains(v, "version-") && !Contains(v, "python-")
    ensures WithoutPrefixes("version-" + v) == v
  {
    ReplaceLeading("version-", v, "");
    assert "" + v == v;
    ReplaceAbsent(v, "python-", "");
  }

  lemma PythonPrefixRemoved(v: string)
    requires !Contains(v, "version-") && !Contains(v, "python-")
    ensures WithoutPrefixes("python-" + v) == v
  {
    assert 'v' !in "python-";
    ContainsAfterPrefix("python-", v, "version-");
    ReplaceAbsent("python-" + v, "version-", "");
    ReplaceLeading("python-", v, "");
    assert "" + v == v;
  }

  /** A prefixed label names what is left once both prefixes are removed. */
  lemma VersionOfPrefixed(name: string)
    requires Lower(name) == name && (StartsWith(name, "version-") || StartsWith(name, "python-"))
    ensures VersionOf(name) == Some(WithoutPrefixes(name))
  {
  }

  lemma PrefixedLower(p: string, v: string)
    requires Lower(p) == p && Lower(v) == v
    ensures Lower(p + v) == p + v
  {
    forall i | 0 <= i < |p + v| ensures Lower(p + v)[i] == (p + v)[i] {
      if i < |p| { assert Lower(p)[i] == p[i]; } else { assert Lower(v)[i - |p|] == v[i - |p|]; }
    }
  }

  /** The version read from a label ignores the label's case. */
  lemma VersionOfIgnoresCase(name: string)
    ensures VersionOf(Upper(name)) == VersionOf(name)
  {
    LowerOfUpper(name);
  }

  /** The versions named by the labels, in label order, with repetitions. */
  function Versions(labels: seq<string>): seq<string> {
    Collect(VersionOf, labels)
  }

  /** The values `f` finds in `xs`, in order. */
  function Collect(f: string -> Option<string>, xs: seq<string>): seq<string> {
    if xs == [] then []
    else
      var vs := Collect(f, xs[..|xs| - 1]);
      match f(xs[|xs| - 1])
      case Some(v) => vs + [v]
      case None => vs
  }

  /** A value is collected exactly when `f` finds it in some element. */
  lemma {:induction false} CollectFound(f: string -> Option<string>, xs: seq<string>, v: string)
    ensures v in Collect(f, xs) <==> exists i :: 0 <= i < |xs| && f(xs[i]) == Some(v)
  {
    if xs != [] {
      var p := xs[..|xs| - 1];
      CollectFound(f, p, v);
      if exists i :: 0 <= i < |p| && f(p[i]) == Some(v) {
        var i :| 0 <= i < |p| && f(p[i]) == Some(v);
        assert xs[i] == p[i];
      }
      if exists i :: 0 <= i < |xs| && f(xs[i]) == Some(v) {
        var i :| 0 <= i < |xs| && f(xs[i]) == Some(v);
        if i < |p| { assert p[i] == xs[i]; }
      }
    }
  }

  /** A version is listed exactly when some label names it. */
  lemma VersionsNamed(labels: seq<string>, v: string)
    ensures v in Versions(labels) <==> exists i :: 0 <= i < |labels| && VersionOf(labels[i]) == Some(v)
  {
    CollectFound(VersionOf, labels, v);
  }

  /** The "Guessed CPython Versions" column: the distinct versions, sorted
      and joined by ";", or "" when no label names a version. */
  function VersionsField(labels: seq<string>): string {
    var vs := Dedup(Versions(labels));
    if vs == [] then "" else Join(SortStrings(vs), ";")
  }

  /** `guess_versions_from_labels`, with its set kept as a duplicate-free list. */
  method GuessVersions(labels: seq<string>) returns (field: string)
    ensures field == VersionsField(labels)
  {
    var versions: seq<string> := [];
    for i := 0 to |labels|
      invariant versions == Dedup(Versions(labels[..i]))
    {
      assert labels[..i + 1][..i] == labels[..i];
      var ver := VersionOf(labels[i]);
      if ver.Some? && ver.value !in versions {
        versions := versions + [ver.value];
      }
    }
    assert labels[..|labels|] == labels;
    field := if |versions| > 0 then Join(SortStrings(versions), ";") else "";
  }

  /** The column lists the sorted distinct versions: splitting it on ";"
      gives them back when no version holds a ";". */
  lemma VersionsFieldPieces(labels: seq<string>)
    requires Versions(labels) != []
    requires forall v :: v in Versions(labels) ==> ';' !in v
    ensures StrictlySorted(Split(VersionsField(labels), ';'))
    ensures forall v :: v in Split(VersionsField(labels), ';') <==> v in Versions(labels)
  {
    var vs := Versions(labels);
    SortDedup(vs);
    var sorted := SortStrings(Dedup(vs));
    assert vs[0] in sorted;
    forall i | 0 <= i < |sorted| ensures ';' !in sorted[i] {
      assert sorted[i] in vs;
    }
    SplitJoin(sorted, ';');
  }

  /** The column is empty exactly when no label names a version other than
      the empty one: `version-` and `python-` alone name `""`. */
  lemma VersionsFieldEmpty(labels: seq<string>)
    ensures VersionsField(labels) == "" <==> forall v :: v in Versions(labels) ==> v == ""
  {
    var vs := Versions(labels);
    DedupElements(vs);
    SortDedup(vs);
    var sorted := SortStrings(Dedup(vs));
    if Dedup(vs) != [] {
      assert Dedup(vs)[0] in vs;
      JoinEmpty(sorted, ";");
      if forall v :: v in vs ==> v == "" {
        forall i | 0 <= i < |sorted| ensures sorted[i] == "" {
          assert sorted[i] in vs;
        }
        SortedConstant(sorted, "");
      }
      if sorted == [""] {
        forall v | v in vs ensures v == "" {
          assert v in sorted;
        }
      }
    }
  }

  /** A strictly sorted list of copies of one string has at most one element. */
  lemma SortedConstant(s: seq<string>, x: string)
    requires StrictlySorted(s) && forall i :: 0 <= i < |s| ==> s[i] == x
    ensures |s| <= 1
  {
    SortedHeadsDiffer(s);
  }

  lemma SortedHeadsDiffer(s: seq<string>)
    requires StrictlySorted(s)
    ensures |s| > 1 ==> s[0] != s[1]
  {
    if |s| > 1 {
      LexIrreflexive(s[0]);
    }
  }

  /** The label `version-` qualifies, yet the column stays empty. */
  lemma EmptyVersionLabel()
    ensures VersionOf("version-") == Some("")
    ensures Versions(["version-"]) == [""] && VersionsField(["version-"]) == ""
  {
    assert "version-" + "" == "version-";
    VersionPrefixedLabel("");
    assert ["version-"][..0] == [];
    assert Versions(["version-"]) == [] + [""];
    VersionsFieldEmpty(["version-"]);
  }

  /** The column depends only on which versions the labels name. */
  lemma VersionsFieldOrderFree(a: seq<string>, b: seq<string>)
    requires forall v :: v in Versions(a) <==> v in Versions(b)
    ensures VersionsField(a) == VersionsField(b)
  {
    SortDedup(Versions(a));
    SortDedup(Versions(b));
    SortedUnique(SortStrings(Dedup(Versions(a))), SortStrings(Dedup(Versions(b))));
    DedupElements(Versions(a));
    DedupElements(Versions(b));
  }

  // ------------------------------------------------------------ configurations

  predicate FreeThreadedNamed(labels: seq<string>) {
    HasLabel(labels, "free-threading") || HasLabel(labels, "freethreading")
  }

  predicate DebugNamed(labels: seq<string>) {
    HasLabel(labels, "debug-build") || HasLabel(labels, "debug")
  }

  predicate AsanNamed(labels: seq<string>) {
    HasLabel(labels, "asan") || HasLabel(labels, "addresssanitizer")
  }

  predicate JitNamed(labels: seq<string>) {
    HasLabel(labels, "jit")
  }

  /** The configurations switched on, in sorted order. */
  function SortedConfigs(asan: bool, debug: bool, freeThreaded: bool, jit: bool): seq<string> {
    (if asan then ["ASAN"] else []) + (if debug then ["Debug Build"] else [])
    + (if freeThreaded then ["Free-threaded"] else []) + (if jit then ["JIT"] else [])
  }

  /** The configurations switched on, in the order the source adds them. */
  function AddedConfigs(asan: bool, debug: bool, freeThreaded: bool, jit: bool): seq<string> {
    (if freeThreaded then ["Free-threaded"] else []) + (if debug then ["Debug Build"] else [])
    + (if asan then ["ASAN"] else []) + (if jit then ["JIT"] else [])
  }

  /** The configurations the labels name, in sorted order. */
  function ConfigsOf(labels: seq<string>): seq<string> {
    SortedConfigs(AsanNamed(labels), DebugNamed(labels), FreeThreadedNamed(labels), JitNamed(labels))
  }

  /** The "Guessed Configurations" column. */
  function ConfigsField(labels: seq<string>): string {
    if ConfigsOf(labels) == [] then "" else Join(ConfigsOf(labels), ";")
  }

  const AllConfigs: seq<string> := ["ASAN", "Debug Build", "Free-threaded", "JIT"]

  lemma AllConfigsSorted()
    ensures StrictlySorted(AllConfigs)
  {
    assert LexLess("ASAN", "Debug Build");
    assert LexLess("Debug Build", "Free-threaded");
    assert LexLess("Free-threaded", "JIT");
    assert LexLess("ASAN", "Free-threaded");
    assert LexLess("ASAN", "JIT");
    assert LexLess("Debug Build", "JIT");
  }

  /** Two sorted lists, every element of the first below every element of
      the second, concatenate to a sorted list. */
  lemma SortedConcat(a: seq<string>, b: seq<string>)
    requires StrictlySorted(a) && StrictlySorted(b)
    requires forall x, y :: x in a && y in b ==> LexLess(x, y)
    ensures StrictlySorted(a + b)
  {
    forall i, j | 0 <= i < j < |a + b| ensures LexLess((a + b)[i], (a + b)[j]) {
      if i < |a| && j >= |a| {
        assert (a + b)[i] == a[i] && (a + b)[j] == b[j - |a|];
      }
    }
  }

  /** The configurations are named in sorted order, each at most once, and
      none holds the separator. */
  lemma SortedConfigsSorted(asan: bool, debug: bool, freeThreaded: bool, jit: bool)
    ensures StrictlySorted(SortedConfigs(asan, debug, freeThreaded, jit))
  {
    AllConfigsSorted();
    var a := if asan then ["ASAN"] else [];
    var d := if debug then ["Debug Build"] else [];
    var f := if freeThreaded then ["Free-threaded"] else [];
    var j := if jit then ["JIT"] else [];
    assert SortedConfigs(asan, debug, freeThreaded, jit) == a + (d + (f + j));
    SortedConcat(f, j);
    SortedConcat(d, f + j);
    SortedConcat(a, d + (f + j));
  }

  lemma SortedConfigsMembers(asan: bool, debug: bool, freeThreaded: bool, jit: bool)
    ensures forall c :: c in SortedConfigs(asan, debug, freeThreaded, jit) ==> c in AllConfigs && ';' !in c
  {
    forall c | c in AllConfigs ensures ';' !in c {
      assert c == "ASAN" || c == "Debug Build" || c == "Free-threaded" || c == "JIT";
    }
  }

  lemma ConfigsOfSorted(labels: seq<string>)
    ensures StrictlySorted(ConfigsOf(labels))
    ensures forall c :: c in ConfigsOf(labels) ==> c in AllConfigs && ';' !in c
  {
    SortedConfigsSorted(AsanNamed(labels), DebugNamed(labels), FreeThreadedNamed(labels), JitNamed(labels));
    SortedConfigsMembers(AsanNamed(labels), DebugNamed(labels), FreeThreadedNamed(labels), JitNamed(labels));
  }

  /** `guess_configurations_from_labels`: adds each configuration in the
      source's order, then sorts and joins. */
  method GuessConfigurations(labels: seq<string>) returns (field: string)
    ensures field == ConfigsField(labels)
  {
    var configs: seq<string> := [];
    if HasLabel(labels, "free-threading") || HasLabel(labels, "freethreading") {
      configs := configs + ["Free-threaded"];
    }
    if HasLabel(labels, "debug-build") || HasLabel(labels, "debug") {
      configs := configs + ["Debug Build"];
    }
    if HasLabel(labels, "asan") || HasLabel(labels, "addresssanitizer") {
      configs := configs + ["ASAN"];
    }
    if HasLabel(labels, "jit") {
      configs := configs + ["JIT"];
    }
    assert configs == AddedConfigs(AsanNamed(labels), DebugNamed(labels), FreeThreadedNamed(labels), JitNamed(labels));
    SortingAddedConfigs(AsanNamed(labels), DebugNamed(labels), FreeThreadedNamed(labels), JitNamed(labels));
    field := if |configs| > 0 then Join(SortStrings(configs), ";") else "";
  }

  /** Sorting the configurations in the order they were added yields the
      sorted list, and one is empty exactly when the other is. */
  lemma SortingAddedConfigs(asan: bool, debug: bool, freeThreaded: bool, jit: bool)
    ensures AddedConfigs(asan, debug, freeThreaded, jit) == [] <==> SortedConfigs(asan, debug, freeThreaded, jit) == []
    ensures SortStrings(AddedConfigs(asan, debug, freeThreaded, jit)) == SortedConfigs(asan, debug, freeThreaded, jit)
  {
    SortedConfigsSorted(asan, debug, freeThreaded, jit);
    var added := AddedConfigs(asan, debug, freeThreaded, jit);
    var sorted := SortedConfigs(asan, debug, freeThreaded, jit);
    AddedConfigsNoDup(asan, debug, freeThreaded, jit);
    SortStringsCorrect(added);
    SameConfigs(asan, debug, freeThreaded, jit);
    forall x ensures x in SortStrings(added) <==> x in sorted {
      assert x in SortStrings(added) <==> x in multiset(SortStrings(added));
      assert x in added <==> x in multiset(added);
    }
    SortedUnique(SortStrings(added), sorted);
  }

  lemma AddedConfigsNoDup(asan: bool, debug: bool, freeThreaded: bool, jit: bool)
    ensures NoDup(AddedConfigs(asan, debug, freeThreaded, jit))
  {
    var s1 := if freeThreaded then ["Free-threaded"] else [];
    var s2 := s1 + (if debug then ["Debug Build"] else []);
    var s3 := s2 + (if asan then ["ASAN"] else []);
    assert AddedConfigs(asan, debug, freeThreaded, jit) == s3 + (if jit then ["JIT"] else []);
    AppendNew(s1, "Debug Build", debug);
    AppendNew(s2, "ASAN", asan);
    AppendNew(s3, "JIT", jit);
  }

  lemma SameConfigs(asan: bool, debug: bool, freeThreaded: bool, jit: bool)
    ensures forall x :: x in AddedConfigs(asan, debug, freeThreaded, jit) <==> x in SortedConfigs(asan, debug, freeThreaded, jit)
  {
    var a := if asan then ["ASAN"] else [];
    var d := if debug then ["Debug Build"] else [];
    var f := if freeThreaded then ["Free-threaded"] else [];
    var j := if jit then ["JIT"] else [];
    assert AddedConfigs(asan, debug, freeThreaded, jit) == f + d + a + j;
    assert SortedConfigs(asan, debug, freeThreaded, jit) == a + d + f + j;
    forall x ensures x in f + d + a + j <==> x in a + d + f + j {
      assert x in f + d + a + j <==> x in f || x in d || x in a || x in j;
      assert x in a + d + f + j <==> x in f || x in d || x in a || x in j;
    }
  }

  lemma AppendNew(s: seq<string>, x: string, b: bool)
    requires NoDup(s) && x !in s
    ensures NoDup(s + (if b then [x] else []))
  {
  }

  /** The column splits back into the sorted configuration names. */
  lemma ConfigsFieldPieces(labels: seq<string>)
    requires ConfigsOf(labels) != []
    ensures Split(ConfigsField(labels), ';') == ConfigsOf(labels)
  {
    ConfigsOfSorted(labels);
    SplitJoin(ConfigsOf(labels), ';');
  }

  // ------------------------------------------------------------ linked PRs

  /** The pull request a cross-reference comes from. */
  datatype PullRequest = PullRequest(url: string, user: Option<string>, state: string)

  /** A timeline event; `source` is present when the event's source is an
      issue that is a pull request. */
  datatype TimelineEvent = TimelineEvent(event: string, source: Option<PullRequest>)

  function Author(pr: PullRequest): string {
    match pr.user
    case Some(login) => login
    case None => "N/A"
  }

  /** `f"{pr.html_url};{pr_author};{pr.state}"` */
  function PrInfo(pr: PullRequest): string {
    pr.url + ";" + Author(pr) + ";" + pr.state
  }

  /** The three fields of an entry come back from splitting it on ";". */
  lemma PrInfoFields(pr: PullRequest)
    requires ';' !in pr.url && ';' !in Author(pr) && ';' !in pr.state
    ensures Split(PrInfo(pr), ';') == [pr.url, Author(pr), pr.state]
  {
    var xs := [pr.url, Author(pr), pr.state];
    assert xs[1..] == [Author(pr), pr.state];
    assert xs[1..][1..] == [pr.state];
    assert Join(xs[1..], ";") == Author(pr) + ";" + pr.state;
    assert Join(xs, ";") == pr.url + ";" + (Author(pr) + ";" + pr.state);
    assert Join(xs, ";") == PrInfo(pr);
    SplitJoin(xs, ';');
  }

  predicate LinksPr(e: TimelineEvent) {
    e.event == "cross-referenced" && e.source.Some?
  }

  /** One entry per cross-referencing pull request, in timeline order. */
  function PrInfos(events: seq<TimelineEvent>): seq<string> {
    if events == [] then []
    else
      var r := PrInfos(events[..|events| - 1]);
      var e := events[|events| - 1];
      if LinksPr(e) then r + [PrInfo(e.source.value)] else r
  }

  /** The timeline loop: an entry is appended unless already listed. */
  method CollectLinkedPrs(events: seq<TimelineEvent>) returns (linkedPrsInfo: seq<string>)
    ensures linkedPrsInfo == Dedup(PrInfos(events))
  {
    linkedPrsInfo := [];
    for i := 0 to |events|
      invariant linkedPrsInfo == Dedup(PrInfos(events[..i]))
    {
      assert events[..i + 1][..i] == events[..i];
      var event := events[i];
      if event.event == "cross-referenced" && event.source.Some? {
        var pr := event.source.value;
        var prAuthor := if pr.user.Some? then pr.user.value else "N/A";
        var prInfo := pr.url + ";" + prAuthor + ";" + pr.state;
        if prInfo !in linkedPrsInfo {
          linkedPrsInfo := linkedPrsInfo + [prInfo];
        }
      }
    }
    assert events[..|events|] == events;
  }

  /** An entry is listed exactly when some cross-referencing pull request
      yields it. */
  lemma {:induction false} PrInfosNamed(events: seq<TimelineEvent>, info: string)
    ensures info in PrInfos(events) <==>
            exists i :: 0 <= i < |events| && LinksPr(events[i]) && PrInfo(events[i].source.value) == info
  {
    if events != [] {
      var p := events[..|events| - 1];
      PrInfosNamed(p, info);
      if exists i :: 0 <= i < |p| && LinksPr(p[i]) && PrInfo(p[i].source.value) == info {
        var i :| 0 <= i < |p| && LinksPr(p[i]) && PrInfo(p[i].source.value) == info;
        assert events[i] == p[i];
      }
      if exists i :: 0 <= i < |events| && LinksPr(events[i]) && PrInfo(events[i].source.value) == info {
        var i :| 0 <= i < |events| && LinksPr(events[i]) && PrInfo(events[i].source.value) == info;
        if i < |p| { assert p[i] == events[i]; }
      }
    }
  }

  /** The linked list holds every pull request once, in the order of its
      first cross-reference. */
  lemma LinkedPrsFacts(events: seq<TimelineEvent>, info: string)
    ensures NoDup(Dedup(PrInfos(events)))
    ensures info in Dedup(PrInfos(events)) <==>
            exists i :: 0 <= i < |events| && LinksPr(events[i]) && PrInfo(events[i].source.value) == info
  {
    DedupElements(PrInfos(events));
    PrInfosNamed(events, info);
  }

  // ------------------------------------------------------------ body snippet

  const SnippetLines: nat := 15

  /** The first lines of the body, joined with a literal backslash-n. */
  function SnippetText(body: string): string {
    var lines := SplitLines(body);
    Join(lines[..if |lines| < SnippetLines then |lines| else SnippetLines], "\\n")
  }

  /** The snippet as the source computes it: "..." follows when the body is
      longer than the escaped snippet. */
  function BodySnippetAsWritten(body: string): string {
    var s := SnippetText(body);
    if |body| > |s| then s + "..." else s
  }

  /** The snippet with "..." exactly when lines were dropped. */
  function BodySnippet(body: string): (r: string)
    ensures |SplitLines(body)| <= SnippetLines ==> r == Join(SplitLines(body), "\\n")
  {
    var s := SnippetText(body);
    var lines := SplitLines(body);
    assert |lines| <= SnippetLines ==> lines[..|lines|] == lines;
    if |lines| > SnippetLines then s + "..." else s
  }

  function EndsWithEllipsis(s: string): bool {
    |s| >= 3 && s[|s| - 3..] == "..."
  }

  /** The corrected snippet marks a truncation exactly when the body has more
      lines than the snippet keeps (a kept last line cannot itself end in
      "..." unless the body has one there). */
  lemma BodySnippetMarksTruncation(body: string)
    requires |SplitLines(body)| > SnippetLines
    ensures BodySnippet(body) == SnippetText(body) + "..."
    ensures EndsWithEllipsis(BodySnippet(body))
  {
  }

  lemma BodySnippetKeepsShortBody(body: string)
    requires |SplitLines(body)| <= SnippetLines
    ensures BodySnippet(body) == Join(SplitLines(body), "\\n")
  {
  }

  /** `n` blank lines. */
  function Newlines(n: nat): string {
    if n == 0 then "" else "\n" + Newlines(n - 1)
  }

  function Blanks(n: nat): seq<string> {
    if n == 0 then [] else [""] + Blanks(n - 1)
  }

  lemma {:induction false} SplitBlankLines(n: nat, s: string)
    ensures SplitLines(Newlines(n) + s) == Blanks(n) + SplitLines(s)
  {
    if n > 0 {
      var t := Newlines(n - 1) + s;
      assert Newlines(n) + s == "\n" + t;
      assert BreakAt("\n" + t, 0) == 0;
      assert ("\n" + t)[1..] == t;
      assert ("\n" + t)[..0] == "";
      assert SplitLines("\n" + t) == [""] + SplitLines(t);
      SplitBlankLines(n - 1, s);
      assert Blanks(n) + SplitLines(s) == [""] + (Blanks(n - 1) + SplitLines(s));
    } else {
      assert Newlines(0) + s == s;
      assert Blanks(0) + SplitLines(s) == SplitLines(s);
    }
  }

  lemma {:induction false} JoinBlanks(n: nat)
    requires n > 0
    ensures |Join(Blanks(n), "\\n")| == 2 * (n - 1)
  {
    if n > 1 {
      assert Blanks(n)[1..] == Blanks(n - 1);
      JoinBlanks(n - 1);
    }
  }

  /** As written, a body of fifteen blank lines and a last line "x" loses
      that line without a trailing "..." (the escape makes the snippet
      longer than the body), and the body "\n" gains a "..." although
      nothing was dropped. */
  lemma BodySnippetAsWrittenMisleads()
    ensures |SplitLines(Newlines(15) + "x")| == 16
    ensures !EndsWithEllipsis(BodySnippetAsWritten(Newlines(15) + "x"))
    ensures |SplitLines("\n")| == 1 && BodySnippetAsWritten("\n") == "..."
  {
    BodySnippetDropsLine();
    BodySnippetMarksNothing();
  }

  lemma BodySnippetDropsLine()
    ensures |SplitLines(Newlines(15) + "x")| == 16
    ensures !EndsWithEllipsis(BodySnippetAsWritten(Newlines(15) + "x"))
  {
    var body := Newlines(15) + "x";
    SplitBlankLines(15, "x");
    assert BreakAt("x", 0) == 1;
    assert SplitLines("x") == ["x"];
    var lines := SplitLines(body);
    assert lines == Blanks(15) + ["x"];
    assert lines[..15] == Blanks(15);
    JoinBlanks(15);
    NewlinesLength(15);
    assert |body| == 16;
    var s := SnippetText(body);
    assert |s| == 28;
    assert BodySnippetAsWritten(body) == s;
    BlanksJoinNoDot(15);
    assert s[|s| - 1] in s;
    assert s[|s| - 3..][2] == s[|s| - 1];
  }

  lemma BodySnippetMarksNothing()
    ensures |SplitLines("\n")| == 1 && BodySnippetAsWritten("\n") == "..."
  {
    SplitBlankLines(1, "");
    assert Newlines(1) + "" == "\n";
    assert SplitLines("\n") == [""];
    assert [""][..1] == [""];
    assert SnippetText("\n") == "";
    assert |"\n"| == 1 && "" + "..." == "...";
    assert BodySnippetAsWritten("\n") == SnippetText("\n") + "...";
  }

  /** A single line with its terminator: the rule as written appends "..."
      though nothing was dropped, the corrected rule does not. */
  lemma TrailingNewlineMarked()
    ensures SplitLines("a\n") == ["a"]
    ensures BodySnippetAsWritten("a\n") == "a..." && BodySnippet("a\n") == "a"
  {
    assert BreakAt("a\n", 0) == 1;
    assert "a\n"[..1] == "a" && "a\n"[2..] == "";
    assert SplitLines("a\n") == ["a"] + SplitLines("");
    assert ["a"][..1] == ["a"];
    assert SnippetText("a\n") == "a";
  }

  lemma {:induction false} NewlinesLength(n: nat)
    ensures |Newlines(n)| == n
  {
    if n > 0 { NewlinesLength(n - 1); }
  }

  lemma {:induction false} BlanksJoinNoDot(n: nat)
    ensures '.' !in Join(Blanks(n), "\\n")
  {
    if n > 1 {
      assert Blanks(n)[1..] == Blanks(n - 1);
      BlanksJoinNoDot(n - 1);
      assert Join(Blanks(n), "\\n") == "" + "\\n" + Join(Blanks(n - 1), "\\n");
    }
  }

  // ------------------------------------------------------------ the CSV row

  /** An issue as the search returns it; dates arrive already formatted. */
  datatype Issue = Issue(
    number: nat, title: string, url: string, createdAt: Option<string>, state: string,
    closedAt: Option<string>, labels: seq<string>, assignees: seq<string>,
    milestone: Option<string>, body: string, timeline: seq<TimelineEvent>)

  /** One row of the issues CSV. */
  datatype IssueRow = IssueRow(
    number: nat, title: string, url: string, dateFiled: string, status: string,
    closedDate: string, labels: string, assignees: string, milestone: string,
    bodySnippet: string, linkedPrs: string, kind: string, versions: string, configurations: string)

  function OrEmpty(o: Option<string>): string {
    match o
    case Some(s) => s
    case None => ""
  }

  /** The row the per-issue loop appends, with the snippet as the source
      computes it. */
  function RowOf(issue: Issue): IssueRow {
    IssueRow(
      issue.number, issue.title, issue.url, OrEmpty(issue.createdAt), issue.state,
      OrEmpty(issue.closedAt), Join(issue.labels, ";"), Join(issue.assignees, ";"),
      OrEmpty(issue.milestone), BodySnippetAsWritten(issue.body),
      Join(Dedup(PrInfos(issue.timeline)), " | "),
      GuessKind(issue.labels, issue.title), VersionsField(issue.labels), ConfigsField(issue.labels))
  }

  /** The per-issue part of `fetch_github_issues`. */
  method BuildRow(issue: Issue) returns (row: IssueRow)
    ensures row == RowOf(issue)
  {
    var linkedPrsInfo := CollectLinkedPrs(issue.timeline);
    var versions := GuessVersions(issue.labels);
    var configs := GuessConfigurations(issue.labels);
    row := IssueRow(
      issue.number, issue.title, issue.url, OrEmpty(issue.createdAt), issue.state,
      OrEmpty(issue.closedAt), Join(issue.labels, ";"), Join(issue.assignees, ";"),
      OrEmpty(issue.milestone), BodySnippetAsWritten(issue.body),
      Join(linkedPrsInfo, " | "),
      GuessKind(issue.labels, issue.title), versions, configs);
  }

  /** The labels column splits back into the labels when none holds ";". */
  lemma RowLabelsRoundTrip(issue: Issue)
    requires |issue.labels| >= 1
    requires forall i :: 0 <= i < |issue.labels| ==> ';' !in issue.labels[i]
    ensures Split(RowOf(issue).labels, ';') == issue.labels
  {
    SplitJoin(issue.labels, ';');
  }
}
