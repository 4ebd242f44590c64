/** Selection of manifest files among the entries of a directory walk: an
    entry is selected when its file name, with ASCII letters lowercased,
    ends with "pipfile". The walk itself is given as the sequence of the
    entries it yields. */
module ManifestFiles {
  import VecOps

  /** `to_ascii_lowercase` on one character: only `A`-`Z` change. */
  function LowerChar(c: char): char {
    if 'A' <= c <= 'Z' then (c as int + 32) as char else c
  }

  function UpperChar(c: char): char {
    if 'a' <= c <= 'z' then (c as int - 32) as char else c
  }

  function ToAsciiLower(s: string): string {
    seq(|s|, i requires 0 <= i < |s| => LowerChar(s[i]))
  }

  function ToAsciiUpper(s: string): string {
    seq(|s|, i requires 0 <= i < |s| => UpperChar(s[i]))
  }

  predicate EndsWith(s: string, suffix: string) {
    |suffix| <= |s| && s[|s| - |suffix|..] == suffix
  }

  const Suffix: string := "pipfile"

  /** The file-name test of the walk loop. */
  predicate IsPipfileName(fileName: string) {
    EndsWith(ToAsciiLower(fileName), Suffix)
  }

  /** Lowercasing works character by character, so it commutes with slicing. */
  lemma LowerSlice(s: string, k: nat)
    requires k <= |s|
    ensures ToAsciiLower(s)[k..] == ToAsciiLower(s[k..])
  {
  }

  /** The name is selected exactly when its last seven characters,
      lowercased, spell "pipfile". */
  lemma PipfileNameIff(fileName: string)
    ensures IsPipfileName(fileName)
            <==> |fileName| >= 7 && ToAsciiLower(fileName[|fileName| - 7..]) == "pipfile"
  {
    if |fileName| >= 7 {
      LowerSlice(fileName, |fileName| - 7);
    }
  }

  /** Uppercasing then lowercasing is the same as lowercasing. */
  lemma LowerOfUpper(s: string)
    ensures ToAsciiLower(ToAsciiUpper(s)) == ToAsciiLower(s)
  {
    forall i | 0 <= i < |s|
      ensures ToAsciiLower(ToAsciiUpper(s))[i] == ToAsciiLower(s)[i]
    {
      var c := s[i];
      assert ToAsciiUpper(s)[i] == UpperChar(c);
      if 'a' <= c <= 'z' {
        assert LowerChar(UpperChar(c)) == c;
      } else if 'A' <= c <= 'Z' {
        assert UpperChar(c) == c;
      }
    }
  }

  lemma LowerIdempotent(s: string)
    ensures ToAsciiLower(ToAsciiLower(s)) == ToAsciiLower(s)
  {
    forall i | 0 <= i < |s|
      ensures ToAsciiLower(ToAsciiLower(s))[i] == ToAsciiLower(s)[i]
    {
      assert ToAsciiLower(s)[i] == LowerChar(s[i]);
    }
  }

  /** The test ignores ASCII case: writing the name in upper or in lower
      case does not change the answer. */
  lemma PipfileNameIgnoresCase(fileName: string)
    ensures IsPipfileName(ToAsciiUpper(fileName)) == IsPipfileName(fileName)
    ensures IsPipfileName(ToAsciiLower(fileName)) == IsPipfileName(fileName)
  {
    LowerOfUpper(fileName);
    LowerIdempotent(fileName);
  }

  /** There is no word boundary: anything may precede the suffix. */
  lemma PipfileNameAnyPrefix(prefix: string, fileName: string)
    requires IsPipfileName(fileName)
    ensures IsPipfileName(prefix + fileName)
  {
    var whole := prefix + fileName;
    assert whole[|prefix|..] == fileName;
    LowerSlice(whole, |prefix|);
    var lw := ToAsciiLower(whole);
    assert lw[|lw| - 7..] == lw[|prefix|..][|fileName| - 7..];
  }

  /** It is a suffix test: a lock file next to a Pipfile is never selected. */
  lemma LockFileRejected(fileName: string)
    ensures !IsPipfileName(fileName + ".lock")
  {
    var name := fileName + ".lock";
    var lw := ToAsciiLower(name);
    assert lw[|lw| - 1] == LowerChar(name[|name| - 1]) == 'k';
  }

  lemma SampleNames()
    ensures IsPipfileName("Pipfile")
    ensures IsPipfileName("PIPFILE")
    ensures IsPipfileName("myPipfile")
    ensures !IsPipfileName("Pipfile.lock")
    ensures !IsPipfileName("requirements.txt")
  {
    assert ToAsciiLower("Pipfile") == "pipfile";
    assert ToAsciiLower("PIPFILE") == "pipfile";
    PipfileNameAnyPrefix("my", "Pipfile");
    assert "my" + "Pipfile" == "myPipfile";
    LockFileRejected("Pipfile");
    assert "Pipfile" + ".lock" == "Pipfile.lock";
    var lr := ToAsciiLower("requirements.txt");
    assert lr[|lr| - 1] == 't';
  }

  /** An entry produced by the directory walk. */
  datatype Entry = Entry(path: string, fileName: string)

  /** The paths of the selected entries, in walk order. */
  function PipfilePaths(entries: seq<Entry>): seq<string> {
    if |entries| == 0 then []
    else
      var last := entries[|entries| - 1];
      PipfilePaths(entries[..|entries| - 1]) + (if IsPipfileName(last.fileName) then [last.path] else [])
  }

  function Paths(entries: seq<Entry>): seq<string> {
    seq(|entries|, i requires 0 <= i < |entries| => entries[i].path)
  }

  /** The loop over the walk's entries, keeping the path of each entry
      whose name passes the test (the path is then printed). */
  method SelectPipfiles(entries: seq<Entry>) returns (paths: seq<string>)
    ensures paths == PipfilePaths(entries)
  {
    paths := [];
    var k := 0;
    while k < |entries|
      invariant k <= |entries|
      invariant paths == PipfilePaths(entries[..k])
    {
      assert entries[..k + 1][..k] == entries[..k];
      var entry := entries[k];
      if IsPipfileName(entry.fileName) {
        paths := paths + [entry.path];
      }
      k := k + 1;
    }
    assert entries[..k] == entries;
  }

  /** A path is selected exactly when some entry with that path has a
      name that passes the test. */
  lemma {:induction false} PipfilePathsMembers(entries: seq<Entry>, p: string)
    ensures p in PipfilePaths(entries)
            <==> exists i :: 0 <= i < |entries| && entries[i].path == p && IsPipfileName(entries[i].fileName)
  {
    if |entries| > 0 {
      var init := entries[..|entries| - 1];
      PipfilePathsMembers(init, p);
      assert forall i :: 0 <= i < |init| ==> init[i] == entries[i];
      if exists i :: 0 <= i < |entries| && entries[i].path == p && IsPipfileName(entries[i].fileName) {
        var i :| 0 <= i < |entries| && entries[i].path == p && IsPipfileName(entries[i].fileName);
        if i < |init| {
          assert init[i] == entries[i];
        }
      }
    }
  }

  /** Selected paths keep the walk's order: they form a subsequence of the
      paths of all entries. */
  lemma {:induction false} PipfilePathsInWalkOrder(entries: seq<Entry>)
    ensures VecOps.IsSubsequence(PipfilePaths(entries), Paths(entries))
  {
    if |entries| > 0 {
      var init := entries[..|entries| - 1];
      var last := entries[|entries| - 1];
      PipfilePathsInWalkOrder(init);
      var all := Paths(entries);
      assert all[..|all| - 1] == Paths(init);
      var sel := PipfilePaths(entries);
      if IsPipfileName(last.fileName) {
        assert sel[..|sel| - 1] == PipfilePaths(init);
        assert sel[|sel| - 1] == all[|all| - 1];
      } else {
        assert sel == PipfilePaths(init);
      }
    }
  }
}
