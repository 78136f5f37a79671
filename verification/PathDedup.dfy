/** `deduplicate_paths`: of the given directories, those that lie in no other. */
module PathDedup {
  import opened Names
  import opened Sorting

  /** `trim_end_matches('/')`. */
  function TrimEnd(p: string): (r: string)
    ensures IsPrefix(r, p)
    ensures r == "" || r[|r| - 1] != '/'
    ensures forall i :: |r| <= i < |p| ==> p[i] == '/'
  {
    if p != "" && p[|p| - 1] == '/' then TrimEnd(p[..|p| - 1]) else p
  }

  /** `path` lies under `parent`. */
  predicate Under(path: string, parent: string) {
    IsPrefix(TrimEnd(parent) + "/", path)
  }

  /** `sort()` on strings. */
  predicate Less(a: string, b: string) {
    Before(a, b)
  }

  lemma NameOrder()
    ensures TotalOrder(Less)
  {
    forall a, b ensures Less(a, b) ==> a != b && !Less(b, a) {
      BeforeTotal(a, b);
    }
    forall a, b, c | Less(a, b) && Less(b, c) ensures Less(a, c) {
      BeforeTransitive(a, b, c);
    }
    forall a, b ensures Less(a, b) || a == b || Less(b, a) {
      BeforeTotal(a, b);
    }
  }

  /** `dedup()`: drops an element equal to the one before it. */
  function Dedup(paths: seq<string>): (r: seq<string>) {
    if |paths| <= 1 then paths
    else
      var before := Dedup(paths[..|paths| - 1]);
      if paths[|paths| - 1] == paths[|paths| - 2] then before else before + [paths[|paths| - 1]]
  }

  lemma {:induction false} DedupSorted(paths: seq<string>)
    requires Sorted(paths, Less)
    ensures Ordered(Dedup(paths), Less)
    ensures forall x :: x in Dedup(paths) <==> x in paths
    decreases |paths|
  {
    if |paths| > 1 {
      var rest, last := paths[..|paths| - 1], paths[|paths| - 1];
      DedupSorted(rest);
      assert paths == rest + [last];
      var before := Dedup(rest);
      if last != paths[|paths| - 2] {
        forall i | 0 <= i < |before| ensures Less(before[i], last) {
          assert before[i] in rest;
          var j :| 0 <= j < |rest| && rest[j] == before[i];
          LessThanLast(paths, j);
        }
      }
    }
  }

  lemma LessThanLast(paths: seq<string>, j: nat)
    requires Sorted(paths, Less) && j < |paths| - 1 && paths[|paths| - 1] != paths[|paths| - 2]
    ensures Less(paths[j], paths[|paths| - 1])
  {
    NameOrder();
    var n := |paths|;
    assert !Less(paths[n - 1], paths[n - 2]) && Less(paths[n - 2], paths[n - 1]);
    assert j == n - 2 || !Less(paths[n - 2], paths[j]);
  }

  /** What is to be kept: a given path for which no smaller given path is above it. */
  ghost predicate Kept(paths: seq<string>, q: string) {
    q in paths && forall p :: p in paths && Before(p, q) ==> !Under(q, p)
  }

  /** Lying under passes on, which is why looking only at kept parents is enough. */
  lemma UnderTransitive(a: string, b: string, c: string)
    requires Under(a, b) && Under(b, c)
    ensures Under(a, c)
  {
    var tb, tc := TrimEnd(b), TrimEnd(c);
    assert (tc + "/")[|tc|] == '/' && b[|tc|] == '/';
    if tc != "" {
      assert b[|tc| - 1] == (tc + "/")[|tc| - 1] == tc[|tc| - 1];
    }
    assert |tc| <= |tb|;
    assert a[..|tb| + 1] == tb + "/";
    forall i | 0 <= i < |tc| ensures a[i] == tc[i] {
      assert a[i] == (tb + "/")[i] == tb[i] == b[i] && b[i] == (tc + "/")[i];
    }
    if |tc| < |tb| {
      assert a[|tc|] == (tb + "/")[|tc|] == tb[|tc|] == b[|tc|];
    } else {
      assert a[|tc|] == (tb + "/")[|tb|];
    }
    assert a[..|tc| + 1] == tc + "/";
  }

  ghost predicate SameElements(a: seq<string>, b: seq<string>) {
    forall x :: x in a <==> x in b
  }

  /** A path that is not kept lies under one that is. */
  lemma {:induction false} KeptAbove(paths: seq<string>, deduped: seq<string>, i: nat) returns (p: string)
    requires Ordered(deduped, Less) && SameElements(deduped, paths)
    requires i < |deduped| && !Kept(paths, deduped[i])
    ensures p in deduped[..i] && Kept(paths, p) && Under(deduped[i], p)
  {
    p :| p in paths && Before(p, deduped[i]) && Under(deduped[i], p);
    var j :| 0 <= j < |deduped| && deduped[j] == p;
    assert i < j ==> Less(deduped[i], deduped[j]);
    BeforeTotal(p, deduped[i]);
    assert j < i;
    assert deduped[..i][j] == p;
    if !Kept(paths, p) {
      var q := KeptAbove(paths, deduped, j);
      UnderTransitive(deduped[i], p, q);
      var k :| 0 <= k < j && deduped[..j][k] == q;
      assert deduped[..i][k] == q;
      p := q;
    }
  }

  lemma CoveredIff(paths: seq<string>, deduped: seq<string>, i: nat, parents: seq<string>)
    requires Ordered(deduped, Less) && SameElements(deduped, paths) && i < |deduped|
    requires forall q :: q in parents <==> q in deduped[..i] && Kept(paths, q)
    ensures (exists p :: p in parents && Under(deduped[i], p)) <==> !Kept(paths, deduped[i])
  {
    if !Kept(paths, deduped[i]) {
      var p := KeptAbove(paths, deduped, i);
    }
    forall p | p in parents && Under(deduped[i], p) ensures !Kept(paths, deduped[i]) {
      var j :| 0 <= j < i && deduped[..i][j] == p;
      assert Less(deduped[j], deduped[i]);
      assert p in deduped;
    }
  }

  /** `deduplicate_paths`. */
  method DeduplicatePaths(paths: seq<string>) returns (parents: seq<string>)
    ensures IsDeduplicated(paths, parents)
  {
    if |paths| <= 1 {
      forall q | q in paths ensures Kept(paths, q) {
        BeforeTotal(q, q);
      }
      return paths;
    }
    var deduped := Dedup(Sort(paths, Less));
    SortedAndDeduped(paths);
    parents := KeepParents(paths, deduped);
  }

  lemma SortedAndDeduped(paths: seq<string>)
    ensures Ordered(Dedup(Sort(paths, Less)), Less) && SameElements(Dedup(Sort(paths, Less)), paths)
  {
    var sorted := Sort(paths, Less);
    NameOrder();
    SortSorts(paths, Less);
    DedupSorted(sorted);
    forall x ensures x in Dedup(sorted) <==> x in paths {
      InMultiset(sorted, x);
      InMultiset(paths, x);
    }
  }

  method KeepParents(ghost paths: seq<string>, deduped: seq<string>) returns (parents: seq<string>)
    requires Ordered(deduped, Less) && SameElements(deduped, paths)
    ensures IsDeduplicated(paths, parents)
  {
    parents := [];
    for i := 0 to |deduped|
      invariant Ordered(parents, Less)
      invariant forall q :: q in parents <==> q in deduped[..i] && Kept(paths, q)
    {
      var covered := AnyAbove(deduped[i], parents);
      CoveredIff(paths, deduped, i, parents);
      assert deduped[..i + 1] == deduped[..i] + [deduped[i]];
      if !covered {
        forall j | 0 <= j < |parents| ensures Less(parents[j], deduped[i]) {
          assert parents[j] in parents;
        }
        parents := parents + [deduped[i]];
      }
    }
    assert deduped[..|deduped|] == deduped;
  }

  method AnyAbove(path: string, parents: seq<string>) returns (r: bool)
    ensures r <==> exists p :: p in parents && Under(path, p)
  {
    r := false;
    for i := 0 to |parents|
      invariant r <==> exists p :: p in parents[..i] && Under(path, p)
    {
      assert parents[..i + 1] == parents[..i] + [parents[i]];
      if Under(path, parents[i]) {
        r := true;
      }
    }
    assert parents[..|parents|] == parents;
  }

  // ---------------------------------------------------------------- what the result is

  /** What the result has to be. */
  ghost predicate IsDeduplicated(paths: seq<string>, parents: seq<string>) {
    Ordered(parents, Less) && forall q :: q in parents <==> Kept(paths, q)
  }

  /** The order of the input does not matter, nor do repetitions in it. */
  lemma OrderDoesNotMatter(a: seq<string>, b: seq<string>, forA: seq<string>, forB: seq<string>)
    requires SameElements(a, b) && IsDeduplicated(a, forA) && IsDeduplicated(b, forB)
    ensures forA == forB
  {
    forall q ensures q in forA <==> q in forB {
      assert Kept(a, q) <==> Kept(b, q);
    }
    forall x, y | Less(x, y) ensures !Less(y, x) {
      BeforeTotal(x, y);
    }
    OrderedUnique(forA, forB, Less);
  }

  /** Nothing is lost: every given path is kept or lies under one that is. */
  lemma EveryPathCovered(paths: seq<string>, parents: seq<string>, q: string)
    requires IsDeduplicated(paths, parents) && q in paths
    ensures q in parents || exists p :: p in parents && Under(q, p)
  {
    if !Kept(paths, q) {
      var deduped := Dedup(Sort(paths, Less));
      SortedAndDeduped(paths);
      var i :| 0 <= i < |deduped| && deduped[i] == q;
      var p := KeptAbove(paths, deduped, i);
      assert p in parents;
    }
  }

  /** No kept path lies under another. */
  ghost predicate Antichain(parents: seq<string>) {
    forall p, q :: p in parents && q in parents && p != q ==> !Under(p, q)
  }

  /** A path that sorts after one under it lies itself under a smaller path. */
  ghost predicate LateAreCovered(paths: seq<string>) {
    forall p, q :: p in paths && q in paths && Before(p, q) && Under(p, q) ==> !Kept(paths, q)
  }

  /** Of two paths above the same path, one lies under the other. */
  lemma AboveTheSame(p: string, q: string, r: string)
    requires Under(p, q) && Under(p, r)
    ensures Under(q, r) || Under(r, q) || q == r
  {
    var tq, tr := TrimEnd(q), TrimEnd(r);
    assert p[|tq|] == (tq + "/")[|tq|] && p[|tr|] == (tr + "/")[|tr|];
    assert p[..|tq|] == tq && p[..|tr|] == tr;
    if |tr| < |tq| {
      assert q[..|tr| + 1] == p[..|tr| + 1];
    } else if |tq| < |tr| {
      assert r[..|tq| + 1] == p[..|tq| + 1];
    } else {
      assert |q| > |tq| ==> q[..|tr| + 1] == tr + "/";
      assert |r| > |tr| ==> r[..|tq| + 1] == tq + "/";
    }
  }

  /** The smaller of two kept paths may lie under the larger; that is the only way to fail. */
  lemma SmallerNeverAbove(paths: seq<string>, p: string, q: string)
    requires Kept(paths, p) && Kept(paths, q) && p != q && Under(p, q)
    ensures Before(p, q)
  {
    BeforeTotal(p, q);
  }

  /** When exactly the result is free of paths that lie under another one. */
  lemma AntichainIff(paths: seq<string>, parents: seq<string>)
    requires IsDeduplicated(paths, parents)
    ensures Antichain(parents) <==> LateAreCovered(paths)
  {
    if LateAreCovered(paths) {
      forall p, q | p in parents && q in parents && p != q ensures !Under(p, q) {
        if Under(p, q) {
          SmallerNeverAbove(paths, p, q);
        }
      }
    }
    if Antichain(parents) {
      forall p, q | p in paths && q in paths && Before(p, q) && Under(p, q) ensures !Kept(paths, q) {
        if Kept(paths, q) {
          LateViolates(paths, parents, p, q);
        }
      }
    }
  }

  lemma LateViolates(paths: seq<string>, parents: seq<string>, p: string, q: string)
    requires IsDeduplicated(paths, parents) && p in paths && Before(p, q) && Under(p, q) && Kept(paths, q)
    ensures !Antichain(parents)
  {
    BeforeTotal(p, q);
    if p !in parents {
      var deduped := Dedup(Sort(paths, Less));
      SortedAndDeduped(paths);
      var i :| 0 <= i < |deduped| && deduped[i] == p;
      var r := KeptAbove(paths, deduped, i);
      var j :| 0 <= j < i && deduped[..i][j] == r;
      assert Less(deduped[j], deduped[i]);
      BeforeTransitive(r, p, q);
      BeforeTotal(r, q);
      AboveTheSame(p, q, r);
      assert Under(r, q) && r in parents;
    }
  }

  /** With at most one slash at the end of every path there is no such path. */
  lemma OneSlashSuffices(paths: seq<string>)
    requires forall q :: q in paths ==> |q| <= |TrimEnd(q)| + 1
    ensures LateAreCovered(paths)
  {
    forall p, q | p in paths && q in paths && Under(p, q) ensures !Before(p, q) {
      var above := TrimEnd(q) + "/";
      assert q == TrimEnd(q) || q == above by {
        assert |q| > |TrimEnd(q)| ==> q[|TrimEnd(q)|] == '/';
        assert q[..|TrimEnd(q)|] == TrimEnd(q);
      }
      assert p[..|above|] == above && above[..|TrimEnd(q)|] == TrimEnd(q);
      assert p[..|q|] == q;
      BeforeTotal(p, q);
      if p != q {
        PrefixBefore(q, p);
        BeforeTotal(q, p);
      }
    }
  }

  /** With two slashes there can be: `-` sorts before `/`. */
  lemma TwoSlashesFail(parents: seq<string>)
    requires IsDeduplicated(["src//", "src/-x"], parents)
    ensures parents == ["src/-x", "src//"] && Under("src/-x", "src//")
  {
    var paths := ["src//", "src/-x"];
    assert TrimEnd("src//") == "src" by {
      assert "src//"[..4] == "src/" && "src/"[..3] == "src";
      assert TrimEnd("src/") == "src";
    }
    assert "src/-x"[..4] == "src" + "/";
    assert TrimEnd("src/-x") == "src/-x";
    Compared();
    assert Kept(paths, "src/-x") && Kept(paths, "src//");
    forall x, y | Less(x, y) ensures !Less(y, x) {
      BeforeTotal(x, y);
    }
    OrderedUnique(parents, ["src/-x", "src//"], Less);
  }

  lemma Compared()
    ensures Before("src/-x", "src//") && !Before("src//", "src/-x")
  {
    var a, b := "src/-x", "src//";
    assert a[1..] == "rc/-x" && b[1..] == "rc//";
    assert "rc/-x"[1..] == "c/-x" && "rc//"[1..] == "c//";
    assert "c/-x"[1..] == "/-x" && "c//"[1..] == "//";
    assert "/-x"[1..] == "-x" && "//"[1..] == "/";
    assert Before("-x", "/");
    assert Before("/-x", "//");
    assert Before("c/-x", "c//");
    assert Before("rc/-x", "rc//");
    BeforeTotal(a, b);
  }
}
