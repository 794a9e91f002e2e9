/** Where a namespaced model lives below the model root. */
module ModelPath {
  import opened Results
  import opened Text

  type Path = seq<string>

  datatype PathError = UnsafeModelStoragePath(id: string)

  predicate IsSegmentChar(c: char) {
    'a' <= c <= 'z' || 'A' <= c <= 'Z' || '0' <= c <= '9' || c == '.' || c == '_' || c == '-'
  }

  predicate SafeSegment(s: string) {
    s != "" && s != "." && s != ".." && forall k :: 0 <= k < |s| ==> IsSegmentChar(s[k])
  }

  /** The pieces between slashes; `piece` is the one being read. */
  function SplitSlash(s: string, piece: string): (r: seq<string>)
    ensures r != []
    decreases |s|
  {
    if s == "" then [piece]
    else if s[0] == '/' then [piece] + SplitSlash(s[1..], "")
    else SplitSlash(s[1..], piece + [s[0]])
  }

  predicate AllSafe(segments: seq<string>) {
    forall k :: 0 <= k < |segments| ==> SafeSegment(segments[k])
  }

  /** Pushes the segments one by one; one unsafe segment refuses the id. */
  method ModelDirectory(root: Path, id: string) returns (r: Result<Path, PathError>)
    ensures AllSafe(SplitSlash(id, "")) ==> r == Success(root + SplitSlash(id, ""))
    ensures !AllSafe(SplitSlash(id, "")) ==> r == Failure(UnsafeModelStoragePath(id))
  {
    var segments := SplitSlash(id, "");
    var directory := root;
    for k := 0 to |segments|
      invariant AllSafe(segments[..k]) && directory == root + segments[..k]
    {
      if !SafeSegment(segments[k]) { return Failure(UnsafeModelStoragePath(id)); }
      directory := directory + [segments[k]];
    }
    assert segments[..|segments|] == segments;
    return Success(directory);
  }

  lemma {:induction false} JoinSplit(s: string, piece: string)
    ensures Join(SplitSlash(s, piece), "/") == piece + s
    decreases |s|
  {
    if s == "" {
      assert piece + s == piece;
    } else if s[0] == '/' {
      JoinSplit(s[1..], "");
      var rest := SplitSlash(s[1..], "");
      assert ([piece] + rest)[1..] == rest;
      assert "" + s[1..] == s[1..] && "/" + s[1..] == s;
      assert piece + "/" + s[1..] == piece + s;
    } else {
      JoinSplit(s[1..], piece + [s[0]]);
      assert (piece + [s[0]]) + s[1..] == piece + s;
    }
  }

  /** What a path names once `.` and `..` are resolved. */
  function Resolve(path: Path): Path {
    if path == [] then []
    else
      var before, last := Resolve(path[..|path| - 1]), path[|path| - 1];
      if last == "." then before
      else if last == ".." then (if before == [] then [] else before[..|before| - 1])
      else before + [last]
  }

  lemma {:induction false} ResolveSafe(root: Path, segments: seq<string>)
    requires AllSafe(segments)
    ensures Resolve(root + segments) == Resolve(root) + segments
    decreases |segments|
  {
    if segments == [] {
      assert root + segments == root && Resolve(root) + segments == Resolve(root);
    } else {
      var before := segments[..|segments| - 1];
      assert (root + segments)[..|root + segments| - 1] == root + before;
      ResolveSafe(root, before);
      assert SafeSegment(segments[|segments| - 1]);
      assert before + [segments[|segments| - 1]] == segments;
    }
  }

  /** An accepted id names a directory strictly below the root, and no other id names the same one. */
  lemma DirectoryIsOwn(root: Path, id: string, other: string)
    requires AllSafe(SplitSlash(id, "")) && AllSafe(SplitSlash(other, ""))
    ensures Resolve(root) < Resolve(root + SplitSlash(id, ""))
    ensures Resolve(root + SplitSlash(id, "")) == Resolve(root + SplitSlash(other, "")) <==> id == other
  {
    var a, b := SplitSlash(id, ""), SplitSlash(other, "");
    ResolveSafe(root, a);
    ResolveSafe(root, b);
    JoinSplit(id, "");
    JoinSplit(other, "");
    assert "" + id == id && "" + other == other;
    if Resolve(root) + a == Resolve(root) + b {
      assert a == (Resolve(root) + a)[|Resolve(root)|..] == (Resolve(root) + b)[|Resolve(root)|..] == b;
    }
  }

  lemma {:induction false} SplitConcat(a: string, b: string, piece: string)
    ensures SplitSlash(a + "/" + b, piece) == SplitSlash(a, piece) + SplitSlash(b, "")
    decreases |a|
  {
    var s := a + "/" + b;
    if a == "" {
      assert s[0] == '/' && s[1..] == b;
    } else {
      assert s[0] == a[0] && s[1..] == a[1..] + "/" + b;
      if a[0] == '/' {
        SplitConcat(a[1..], b, "");
      } else {
        SplitConcat(a[1..], b, piece + [a[0]]);
      }
    }
  }

  lemma {:induction false} JoinConcat(a: seq<string>, b: seq<string>)
    requires a != [] && b != []
    ensures Join(a + b, "/") == Join(a, "/") + "/" + Join(b, "/")
    decreases |a|
  {
    if |a| == 1 {
      assert (a + b)[1..] == b;
    } else {
      assert (a + b)[1..] == a[1..] + b;
      JoinConcat(a[1..], b);
      assert a[0] + "/" + (Join(a[1..], "/") + "/" + Join(b, "/"))
        == (a[0] + "/" + Join(a[1..], "/")) + "/" + Join(b, "/");
    }
  }

  lemma CancelBase(base: Path, a: seq<string>, b: seq<string>)
    ensures base + a < base + b <==> a < b
  {
    if base + a < base + b {
      forall k | 0 <= k < |a| ensures a[k] == b[k] {
        assert (base + a)[|base| + k] == (base + b)[|base| + k];
      }
    }
    if a < b {
      assert b == a + b[|a|..];
      assert base + b == (base + a) + b[|a|..];
    }
  }

  lemma {:induction false} SegmentsNest(id: string, other: string)
    ensures SplitSlash(id, "") < SplitSlash(other, "") <==> id + "/" <= other
  {
    var a, b := SplitSlash(id, ""), SplitSlash(other, "");
    if id + "/" <= other {
      var rest := other[|id| + 1..];
      assert other == id + "/" + rest;
      SplitConcat(id, rest, "");
    }
    if a < b {
      var rest := b[|a|..];
      assert b == a + rest;
      JoinConcat(a, rest);
      JoinSplit(id, "");
      JoinSplit(other, "");
      assert "" + id == id && "" + other == other;
      assert other == id + "/" + Join(rest, "/");
    }
  }

  /** One accepted id's directory lies inside another's exactly when the other id goes on after it with a slash. */
  lemma DirectoriesNest(root: Path, id: string, other: string)
    requires AllSafe(SplitSlash(id, "")) && AllSafe(SplitSlash(other, ""))
    ensures Resolve(root + SplitSlash(id, "")) < Resolve(root + SplitSlash(other, "")) <==> id + "/" <= other
  {
    ResolveSafe(root, SplitSlash(id, ""));
    ResolveSafe(root, SplitSlash(other, ""));
    CancelBase(Resolve(root), SplitSlash(id, ""), SplitSlash(other, ""));
    SegmentsNest(id, other);
  }

  // ----- the directory that installs create themselves -----

  const DOWNLOADS: string := ".downloads"

  lemma {:induction false} NoSlashOnePiece(s: string, piece: string)
    requires '/' !in s
    ensures SplitSlash(s, piece) == [piece + s]
    decreases |s|
  {
    if s == "" {
      assert piece + s == piece;
    } else {
      NoSlashOnePiece(s[1..], piece + [s[0]]);
      assert (piece + [s[0]]) + s[1..] == piece + s;
    }
  }

  /** The id `.downloads` is accepted, and it alone names the directory in which downloads are kept. */
  lemma DownloadsExact(root: Path, id: string)
    ensures AllSafe(SplitSlash(id, "")) && Resolve(root + SplitSlash(id, "")) == Resolve(root + [DOWNLOADS])
       <==> id == DOWNLOADS
  {
    NoSlashOnePiece(DOWNLOADS, "");
    assert "" + DOWNLOADS == DOWNLOADS;
    assert SafeSegment(DOWNLOADS);
    if AllSafe(SplitSlash(id, "")) {
      DirectoryIsOwn(root, id, DOWNLOADS);
    }
  }
}
