/**
 The two POSIX path helpers the deploy script uses to name the destination of
 a pattern-matched archive entry: `os.path.basename` and `os.path.join` with
 two arguments (the `posixpath` variants, `/` being the only separator).
 */
module Paths {

  /** Everything after the last `/` of `p` (all of `p` when it has none). */
  function Basename(p: string): string
    decreases |p|
  {
    if |p| == 0 then ""
    else if p[|p| - 1] == '/' then ""
    else Basename(p[..|p| - 1]) + [p[|p| - 1]]
  }

  /** The basename is the final component: a suffix of `p` without `/`,
      preceded in `p` by a `/` unless it is all of `p`. */
  lemma {:induction false} BasenameIsLastComponent(p: string)
    ensures var b := Basename(p);
      && |b| <= |p| && b == p[|p| - |b|..]
      && '/' !in b
      && (|b| == |p| || p[|p| - |b| - 1] == '/')
    decreases |p|
  {
    if |p| > 0 && p[|p| - 1] != '/' {
      var q := p[..|p| - 1];
      BasenameIsLastComponent(q);
      var b := Basename(q);
      assert Basename(p) == b + [p[|p| - 1]];
      assert q[|q| - |b|..] + [p[|p| - 1]] == p[|p| - |b| - 1..];
      if |b| < |q| {
        assert q[|q| - |b| - 1] == p[|p| - |b| - 2];
      }
    }
  }

  /** `os.path.join(a, b)`: an absolute `b` replaces `a`; otherwise `b` is
      appended to `a`, with a `/` in between unless `a` is empty or already
      ends in one. */
  function Join(a: string, b: string): string {
    if |b| > 0 && b[0] == '/' then b
    else if |a| == 0 || a[|a| - 1] == '/' then a + b
    else a + "/" + b
  }

  /** A string that ends with a separator-free tail after a separator (or
      at its very start) has that tail as its basename. */
  lemma {:induction false} BasenameOfTail(head: string, tail: string)
    requires '/' !in tail
    requires |head| == 0 || head[|head| - 1] == '/'
    ensures Basename(head + tail) == tail
    decreases |tail|
  {
    var p := head + tail;
    if |tail| == 0 {
      assert p == head;
    } else {
      var last := tail[|tail| - 1];
      assert p[|p| - 1] == last;
      assert p[..|p| - 1] == head + tail[..|tail| - 1];
      assert '/' !in tail[..|tail| - 1] by {
        assert forall i :: 0 <= i < |tail| - 1 ==> tail[..|tail| - 1][i] == tail[i];
      }
      BasenameOfTail(head, tail[..|tail| - 1]);
      assert tail == tail[..|tail| - 1] + [last];
    }
  }

  /** The separator `Join` puts between a directory and a relative name. */
  function Separator(dir: string): string {
    if |dir| == 0 || dir[|dir| - 1] == '/' then "" else "/"
  }

  /** A basename never starts with `/`, so joining it never discards `dir`. */
  lemma BasenameIsRelative(path: string)
    ensures !(|Basename(path)| > 0 && Basename(path)[0] == '/')
  {
    BasenameIsLastComponent(path);
    var b := Basename(path);
    if |b| > 0 {
      assert b[0] in b;
    }
  }

  /** The joined destination lies directly under `dir`: it is `dir`, then a
      separator when `dir` needs one, then the entry's basename. */
  lemma JoinPlacesUnderDir(dir: string, path: string)
    ensures Join(dir, Basename(path)) == dir + Separator(dir) + Basename(path)
  {
    BasenameIsRelative(path);
  }

  /** Joining a directory with a basename keeps that basename: the deployed
      file keeps the name it had in the archive. */
  lemma JoinKeepsBasename(dir: string, path: string)
    ensures Basename(Join(dir, Basename(path))) == Basename(path)
  {
    var b := Basename(path);
    BasenameIsLastComponent(path);
    JoinPlacesUnderDir(dir, path);
    assert dir + Separator(dir) + b == (dir + Separator(dir)) + b;
    BasenameOfTail(dir + Separator(dir), b);
  }
}
