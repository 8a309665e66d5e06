/**
 * Names of the per-test artifacts written by the pytest plugin: the test
 * name derived from a pytest node id (`_get_test_name`) and the file name
 * of each artifact (`_get_artifact_path`, without its directory).
 */
module ArtifactNames {
  import opened PyStr

  /** `_get_test_name`. The last `::` segment of the node id is the test
      function, with `[params]` for a parametrised test. A plain test keeps
      it as it is; a parametrised one keeps the text before the first `[`,
      followed by `_p` and the last four characters of the MD5 hex digest
      of the parameters (the text after the first `[`, trailing `]`s
      removed). `md5Hex` stands for `hashlib.md5(p.encode('utf-8')).hexdigest()`. */
  function TestName(nodeId: string, md5Hex: string -> string): string {
    var lastPart := Last(Split(nodeId, "::"));
    var funcName := Split(lastPart, "[")[0];
    if Contains(lastPart, "[") then
      var paramPart := RStripChar(SplitOnce(lastPart, "[")[1], ']');
      funcName + "_p" + TakeLast(md5Hex(paramPart), 4)
    else
      funcName
  }

  /** The segment the test name is taken from is a suffix of the node id
      and holds no `::`. */
  lemma LastSegment(nodeId: string)
    ensures var lastPart := Last(Split(nodeId, "::"));
      && |lastPart| <= |nodeId|
      && lastPart == nodeId[|nodeId| - |lastPart|..]
      && !Contains(lastPart, "::")
  {
    SplitLastIsSuffix(nodeId, "::");
    SplitPiecesFree(nodeId, "::");
  }

  /** A test that is not parametrised is named by its last segment. */
  lemma PlainTestName(nodeId: string, md5Hex: string -> string)
    requires !Contains(Last(Split(nodeId, "::")), "[")
    ensures TestName(nodeId, md5Hex) == Last(Split(nodeId, "::"))
  {
  }

  /** A node id `path::function` is named by its function alone, whatever
      the path before it, as long as the path does not end in `:`. */
  lemma LastSegmentAfterPath(path: string, func: string)
    requires ':' !in func
    requires path == [] || path[|path| - 1] != ':'
    ensures Last(Split(path + "::" + func, "::")) == func
  {
    var s := path + "::" + func;
    var p := |path|;
    assert OccursAt(s, "::", p) by { assert s[p..p + 2] == "::"; }
    assert s[p + 2..] == func;
    assert !Contains(func, "::") by {
      ContainsIff(func, "::");
      forall k: nat | k < |func| ensures !OccursAt(func, "::", k) {
        MismatchRulesOut(func, "::", k, 0);
      }
    }
    forall j | p - 2 < j < p ensures !OccursAt(s, "::", j) {
      if 0 <= j {
        assert s[j] == path[p - 1];
        MismatchRulesOut(s, "::", j, 0);
      }
    }
    SplitLastAfter(s, "::", p);
  }

  /** Two tests with the same function name in different modules get the
      same artifact file names within one run, so the later one's log,
      screenshot and network log overwrite the earlier one's in the shared
      artifact directories. */
  lemma SameNameSameFile(path1: string, path2: string, func: string, md5Hex: string -> string,
                         timestamp: string, extension: string)
    requires ':' !in func
    requires path1 == [] || path1[|path1| - 1] != ':'
    requires path2 == [] || path2[|path2| - 1] != ':'
    ensures ArtifactFileName(TestName(path1 + "::" + func, md5Hex), timestamp, extension)
         == ArtifactFileName(TestName(path2 + "::" + func, md5Hex), timestamp, extension)
  {
    LastSegmentAfterPath(path1, func);
    LastSegmentAfterPath(path2, func);
  }

  /** Cutting a string at the first occurrence of one character. */
  lemma SplitOnceAtFirst(s: string, before: string, after: string, c: char)
    requires s == before + [c] + after && c !in before
    ensures SplitOnce(s, [c]) == [before, after]
    ensures Split(s, [c])[0] == before
  {
    assert OccursAt(s, [c], |before|);
    forall j | 0 <= j < |before| ensures !OccursAt(s, [c], j) {
      assert s[j] == before[j];
    }
  }

  /** A parametrised test `name[params]` is named `name_p` followed by the
      last four hex digits of the parameters' hash; the brackets are gone,
      and with a 32-digit hex digest the hash part is four characters. */
  lemma ParametrisedTestName(nodeId: string, md5Hex: string -> string, name: string, params: string)
    requires Last(Split(nodeId, "::")) == name + "[" + params && '[' !in name
    ensures TestName(nodeId, md5Hex) == name + "_p" + TakeLast(md5Hex(RStripChar(params, ']')), 4)
    ensures '[' !in md5Hex(RStripChar(params, ']')) ==> '[' !in TestName(nodeId, md5Hex)
    ensures |md5Hex(RStripChar(params, ']'))| == 32 ==> |TestName(nodeId, md5Hex)| == |name| + 6
  {
    var lastPart := name + "[" + params;
    SplitOnceAtFirst(lastPart, name, params, '[');
    assert OccursAt(lastPart, "[", |name|);
    ContainsIff(lastPart, "[");
    var hash := TakeLast(md5Hex(RStripChar(params, ']')), 4);
    assert TestName(nodeId, md5Hex) == name + "_p" + hash;
    if '[' !in md5Hex(RStripChar(params, ']')) {
      assert forall c :: c in hash ==> c in md5Hex(RStripChar(params, ']'));
    }
  }

  /** `_get_artifact_path`'s file name: `{test_name}_{TIMESTAMP}.{extension}`. */
  function ArtifactFileName(testName: string, timestamp: string, extension: string): (r: string)
    ensures |r| == |testName| + |timestamp| + |extension| + 2
  {
    testName + "_" + timestamp + "." + extension
  }

  /** Within one run (one timestamp), different test names or different
      extensions (`log`, `png`, `json`) never share a file name. Different
      tests can share a test name, though: see `SameNameSameFile`. */
  lemma ArtifactFileNameInjective(a: string, b: string, timestamp: string, e1: string, e2: string)
    requires '.' !in e1 && '.' !in e2
    requires ArtifactFileName(a, timestamp, e1) == ArtifactFileName(b, timestamp, e2)
    ensures a == b && e1 == e2
  {
    var n1 := ArtifactFileName(a, timestamp, e1);
    var n2 := ArtifactFileName(b, timestamp, e2);
    var m := |n1|;
    ShorterExtensionDot(a + "_" + timestamp, e1, b + "_" + timestamp, e2);
    ShorterExtensionDot(b + "_" + timestamp, e2, a + "_" + timestamp, e1);
    assert e1 == n1[m - |e1|..] == e2;
    assert a == n1[..|a|] == b;
  }

  /** If two `stem.ext` strings are equal, the shorter extension ends where
      the longer one still has a character: a dot. */
  lemma ShorterExtensionDot(x1: string, e1: string, x2: string, e2: string)
    requires x1 + "." + e1 == x2 + "." + e2
    ensures |e1| < |e2| ==> '.' in e2
  {
    var n := x1 + "." + e1;
    if |e1| < |e2| {
      assert n[|n| - |e1| - 1] == '.';
      assert (x2 + "." + e2)[|n| - |e1| - 1] == e2[|e2| - |e1| - 1];
    }
  }
}
