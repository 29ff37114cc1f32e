/**
 * scripts/update-hikes.cjs: the manifest is the directory's entries that end
 * in `.gpx`, sorted in descending order. `localeCompare` is modelled as the
 * lexicographic order on characters.
 */
module HikeManifest {

  /** `file.endsWith('.gpx')`: case-sensitive. */
  predicate EndsWithGpx(name: string)
  {
    |name| >= 4 && name[|name| - 4..] == ".gpx"
  }

  /** `a.localeCompare(b) < 0`, as lexicographic order on characters. */
  predicate Below(a: string, b: string)
  {
    if a == [] then b != []
    else if b == [] then false
    else a[0] < b[0] || (a[0] == b[0] && Below(a[1..], b[1..]))
  }

  lemma {:induction false} BelowIrreflexive(a: string)
    ensures !Below(a, a)
  {
    if a != [] {
      BelowIrreflexive(a[1..]);
    }
  }

  lemma {:induction false} BelowAsymmetric(a: string, b: string)
    requires Below(a, b)
    ensures !Below(b, a)
  {
    if a != [] && b != [] && a[0] == b[0] {
      BelowAsymmetric(a[1..], b[1..]);
    }
  }

  lemma {:induction false} BelowTransitive(a: string, b: string, c: string)
    requires Below(a, b) && Below(b, c)
    ensures Below(a, c)
  {
    if a != [] && a[0] == b[0] && b[0] == c[0] {
      BelowTransitive(a[1..], b[1..], c[1..]);
    }
  }

  /** Two different names are always ordered one way or the other. */
  lemma {:induction false} BelowTotal(a: string, b: string)
    ensures Below(a, b) || a == b || Below(b, a)
  {
    if a != [] && b != [] && a[0] == b[0] {
      BelowTotal(a[1..], b[1..]);
      if a[1..] == b[1..] {
        assert a == [a[0]] + a[1..] && b == [b[0]] + b[1..];
      }
    }
  }

  /** `.filter(file => file.endsWith('.gpx'))` */
  function GpxFiles(entries: seq<string>): (r: seq<string>)
    ensures forall i :: 0 <= i < |r| ==> EndsWithGpx(r[i])
    ensures |r| <= |entries|
  {
    if entries == [] then []
    else
      var rest := GpxFiles(entries[1..]);
      if EndsWithGpx(entries[0]) then [entries[0]] + rest else rest
  }

  /** The filter keeps every `.gpx` entry as often as it occurs, and nothing else. */
  lemma {:induction false} GpxFilesCounts(entries: seq<string>)
    ensures forall name :: multiset(GpxFiles(entries))[name] == if EndsWithGpx(name) then multiset(entries)[name] else 0
  {
    if entries != [] {
      GpxFilesCounts(entries[1..]);
      assert entries == [entries[0]] + entries[1..];
    }
  }

  /** Consecutive names are in descending order. */
  predicate Descending(s: seq<string>)
  {
    forall i :: 0 < i < |s| ==> !Below(s[i - 1], s[i])
  }

  /** Puts x in front of the first name not above it. */
  function Insert(x: string, s: seq<string>): (r: seq<string>)
    ensures |r| == |s| + 1
  {
    if s == [] || !Below(x, s[0]) then [x] + s
    else [s[0]] + Insert(x, s[1..])
  }

  /** `.sort((a, b) => b.localeCompare(a))` */
  function SortDescending(s: seq<string>): (r: seq<string>)
    ensures |r| == |s|
  {
    if s == [] then [] else Insert(s[0], SortDescending(s[1..]))
  }

  /** The whole rebuild: what is written to manifest.json. */
  function BuildManifest(entries: seq<string>): (r: seq<string>)
    ensures Descending(r) && |r| <= |entries|
  {
    SortFacts(GpxFiles(entries));
    SortDescending(GpxFiles(entries))
  }

  lemma InsertHead(x: string, s: seq<string>)
    ensures Insert(x, s)[0] == if s == [] || !Below(x, s[0]) then x else s[0]
  {
  }

  lemma {:induction false} InsertPermutes(x: string, s: seq<string>)
    ensures multiset(Insert(x, s)) == multiset(s) + multiset{x}
  {
    if s != [] && Below(x, s[0]) {
      InsertPermutes(x, s[1..]);
      assert s == [s[0]] + s[1..];
    }
  }

  lemma {:induction false} InsertDescending(x: string, s: seq<string>)
    requires Descending(s)
    ensures Descending(Insert(x, s))
  {
    if s != [] && Below(x, s[0]) {
      var r' := Insert(x, s[1..]);
      assert Descending(s[1..]) by {
        forall i | 0 < i < |s[1..]|
          ensures !Below(s[1..][i - 1], s[1..][i])
        {
          assert s[1..][i - 1] == s[i] && s[1..][i] == s[i + 1];
        }
      }
      InsertDescending(x, s[1..]);
      InsertHead(x, s[1..]);
      BelowAsymmetric(x, s[0]);
      var r := [s[0]] + r';
      forall i | 0 < i < |r|
        ensures !Below(r[i - 1], r[i])
      {
        if i == 1 {
          if |s| > 1 && Below(x, s[1]) {
            assert !Below(s[0], s[1]);
          }
        } else {
          assert r[i - 1] == r'[i - 2] && r[i] == r'[i - 1];
        }
      }
    }
  }

  /** The sort returns a descending permutation of its input. */
  lemma {:induction false} SortFacts(s: seq<string>)
    ensures Descending(SortDescending(s))
    ensures multiset(SortDescending(s)) == multiset(s)
  {
    if s != [] {
      SortFacts(s[1..]);
      InsertDescending(s[0], SortDescending(s[1..]));
      InsertPermutes(s[0], SortDescending(s[1..]));
      assert s == [s[0]] + s[1..];
    }
  }

  /** A list that is already descending is returned unchanged. */
  lemma {:induction false} SortKeepsDescending(s: seq<string>)
    requires Descending(s)
    ensures SortDescending(s) == s
  {
    if s != [] {
      assert Descending(s[1..]) by {
        forall i | 0 < i < |s[1..]|
          ensures !Below(s[1..][i - 1], s[1..][i])
        {
          assert s[1..][i - 1] == s[i] && s[1..][i] == s[i + 1];
        }
      }
      SortKeepsDescending(s[1..]);
      if |s| > 1 {
        assert !Below(s[0], s[1]);
      }
      assert [s[0]] + s[1..] == s;
    }
  }

  /** Filtering a list of `.gpx` names keeps it as it is. */
  lemma {:induction false} FilterKeepsGpxFiles(s: seq<string>)
    requires forall i :: 0 <= i < |s| ==> EndsWithGpx(s[i])
    ensures GpxFiles(s) == s
  {
    if s != [] {
      FilterKeepsGpxFiles(s[1..]);
      assert [s[0]] + s[1..] == s;
    }
  }

  /**
   * The manifest holds exactly the `.gpx` entries, each as often as in the
   * directory listing, in descending order.
   */
  lemma ManifestIsSortedGpxPermutation(entries: seq<string>)
    ensures var m := BuildManifest(entries);
      (forall i :: 0 <= i < |m| ==> EndsWithGpx(m[i])) &&
      Descending(m) &&
      forall name :: multiset(m)[name] == if EndsWithGpx(name) then multiset(entries)[name] else 0
  {
    SortFacts(GpxFiles(entries));
    GpxFilesCounts(entries);
  }

  /** Rebuilding from the manifest's own list gives the manifest back. */
  lemma RebuildIsIdempotent(entries: seq<string>)
    ensures BuildManifest(BuildManifest(entries)) == BuildManifest(entries)
  {
    var m := BuildManifest(entries);
    ManifestIsSortedGpxPermutation(entries);
    FilterKeepsGpxFiles(m);
    SortKeepsDescending(m);
  }

  /** The suffix check is case-sensitive and must be at the very end. */
  lemma SuffixIsExact()
    ensures EndsWithGpx("a.gpx")
    ensures !EndsWithGpx("a.GPX") && !EndsWithGpx("a.gpx.bak") && !EndsWithGpx("gpx")
  {
    assert "a.gpx"[1..] == ".gpx";
    assert "a.GPX"[1..] != ".gpx" by { assert "a.GPX"[1..][1] == 'G'; }
    assert "a.gpx.bak"[5..] != ".gpx" by { assert "a.gpx.bak"[5..][1] == 'b'; }
  }

  lemma ScenarioFilter()
    ensures GpxFiles(["b.gpx", "a.gpx", "a.GPX", "c.gpx", "a.gpx.bak"]) == ["b.gpx", "a.gpx", "c.gpx"]
  {
    var entries := ["b.gpx", "a.gpx", "a.GPX", "c.gpx", "a.gpx.bak"];
    SuffixIsExact();
    assert EndsWithGpx(entries[0]) by { assert "b.gpx"[1..] == ".gpx"; }
    assert EndsWithGpx(entries[3]) by { assert "c.gpx"[1..] == ".gpx"; }
    var tail4 := GpxFiles(entries[4..]);
    assert tail4 == [] by { assert entries[4..][1..] == []; }
    assert GpxFiles(entries[3..]) == ["c.gpx"] by { assert entries[3..][1..] == entries[4..]; }
    assert GpxFiles(entries[2..]) == ["c.gpx"] by { assert entries[2..][1..] == entries[3..]; }
    assert GpxFiles(entries[1..]) == ["a.gpx", "c.gpx"] by { assert entries[1..][1..] == entries[2..]; }
  }

  lemma ScenarioSort()
    ensures SortDescending(["b.gpx", "a.gpx", "c.gpx"]) == ["c.gpx", "b.gpx", "a.gpx"]
  {
    assert Below("a.gpx", "c.gpx");
    assert Below("b.gpx", "c.gpx");
    assert !Below("b.gpx", "a.gpx");
    assert SortDescending(["c.gpx"]) == ["c.gpx"];
    assert SortDescending(["a.gpx", "c.gpx"]) == ["c.gpx", "a.gpx"];
  }

  /** `b.gpx`, `a.gpx`, `c.gpx` and two near misses give `c.gpx`, `b.gpx`, `a.gpx`. */
  lemma ThreeFileScenario()
    ensures BuildManifest(["b.gpx", "a.gpx", "a.GPX", "c.gpx", "a.gpx.bak"]) == ["c.gpx", "b.gpx", "a.gpx"]
  {
    ScenarioFilter();
    ScenarioSort();
  }
}
