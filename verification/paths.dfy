/**
 * String and path primitives used by the downloader's file naming:
 * JavaScript's `String.prototype.replace` with a string pattern (first
 * occurrence only) and with a global regular expression made of literal
 * characters (every non-overlapping occurrence, left to right), the
 * character sanitisation of the templated name, and the slash-separated
 * `basename`, `dirname` and `join` of Node's `path` module in their simple
 * form.
 */
module Paths {

  /** `pat` occurs in `s` starting at index `i`. */
  predicate OccursAt(s: string, pat: string, i: int)
  {
    0 <= i && i + |pat| <= |s| && s[i..i + |pat|] == pat
  }

  /** An occurrence at `i + 1` in `s` is an occurrence at `i` in `s[1..]`. */
  lemma OccursShift(s: string, pat: string, i: int)
    requires |s| > 0 && 0 <= i
    ensures OccursAt(s, pat, i + 1) <==> OccursAt(s[1..], pat, i)
  {
    if 0 <= i && i + 1 + |pat| <= |s| {
      assert s[1..][i..i + |pat|] == s[i + 1..i + 1 + |pat|];
    }
  }

  /** Every character of an occurrence of `pat` is a character of `s`. */
  lemma OccursChars(s: string, pat: string, i: int, k: int)
    requires OccursAt(s, pat, i) && 0 <= k < |pat|
    ensures pat[k] in s
  {
    assert s[i..i + |pat|][k] == s[i + k];
  }

  /** Index of the first occurrence of `pat` in `s`, or -1 when there is none (`indexOf`). */
  function IndexOf(s: string, pat: string): (r: int)
    ensures -1 <= r <= |s|
    ensures r >= 0 ==> OccursAt(s, pat, r)
    decreases |s|
  {
    if |pat| > |s| then -1
    else if s[..|pat|] == pat then 0
    else
      var k := IndexOf(s[1..], pat);
      if k >= 0 then OccursShift(s, pat, k); k + 1
      else -1
  }

  /** No occurrence of `pat` starts before the index found, and none at all when it is -1. */
  lemma {:induction false} IndexOfLeftmost(s: string, pat: string)
    ensures var r := IndexOf(s, pat); forall i | 0 <= i && (r < 0 || i < r) :: !OccursAt(s, pat, i)
    decreases |s|
  {
    if |pat| <= |s| && s[..|pat|] != pat {
      var k := IndexOf(s[1..], pat);
      IndexOfLeftmost(s[1..], pat);
      assert !OccursAt(s, pat, 0);
      forall i | 1 <= i && (k < 0 || i < k + 1) ensures !OccursAt(s, pat, i) {
        OccursShift(s, pat, i - 1);
      }
    }
  }

  /**
   * `s.replace(pat, rep)` with a string pattern: only the leftmost
   * occurrence of `pat` is replaced; without one, `s` is returned as is.
   */
  function ReplaceFirst(s: string, pat: string, rep: string): string
  {
    var i := IndexOf(s, pat);
    if i < 0 then s else s[..i] + rep + s[i + |pat|..]
  }

  /** The splice `replace` makes at the first occurrence, when there is one. */
  lemma ReplaceFirstAt(s: string, pat: string, rep: string)
    requires IndexOf(s, pat) >= 0
    ensures ReplaceFirst(s, pat, rep) == s[..IndexOf(s, pat)] + rep + s[IndexOf(s, pat) + |pat|..]
  {
  }

  /** The leftmost occurrence, and only it, is replaced. */
  lemma ReplaceFirstLeftmost(s: string, pat: string, rep: string, i: int)
    requires OccursAt(s, pat, i)
    requires forall j | 0 <= j < i :: !OccursAt(s, pat, j)
    ensures ReplaceFirst(s, pat, rep) == s[..i] + rep + s[i + |pat|..]
  {
    IndexOfLeftmost(s, pat);
    assert IndexOf(s, pat) == i;
  }

  /** Without an occurrence the string is returned as it is. */
  lemma ReplaceFirstNone(s: string, pat: string, rep: string)
    requires forall i :: !OccursAt(s, pat, i)
    ensures ReplaceFirst(s, pat, rep) == s
  {
    IndexOfLeftmost(s, pat);
  }

  /**
   * `s.replace(/pat/g, rep)` for a pattern of literal characters: the
   * string is scanned left to right and every occurrence that does not
   * overlap an earlier replaced one is replaced.
   */
  function ReplaceAll(s: string, pat: string, rep: string): (r: string)
    requires pat != []
    ensures |rep| == |pat| ==> |r| == |s|
    decreases |s|
  {
    if |s| < |pat| then s
    else if s[..|pat|] == pat then rep + ReplaceAll(s[|pat|..], pat, rep)
    else [s[0]] + ReplaceAll(s[1..], pat, rep)
  }

  /** Without an occurrence of the pattern the string is returned as it is. */
  lemma {:induction false} ReplaceAllNoMatch(s: string, pat: string, rep: string)
    requires pat != []
    requires forall i :: !OccursAt(s, pat, i)
    ensures ReplaceAll(s, pat, rep) == s
    decreases |s|
  {
    if |s| >= |pat| {
      assert !OccursAt(s, pat, 0);
      forall i ensures !OccursAt(s[1..], pat, i) {
        if i >= 0 {
          OccursShift(s, pat, i);
        }
      }
      ReplaceAllNoMatch(s[1..], pat, rep);
      assert s == [s[0]] + s[1..];
    }
  }

  /** Replacing the pattern by itself changes nothing. */
  lemma {:induction false} ReplaceAllSelf(s: string, pat: string)
    requires pat != []
    ensures ReplaceAll(s, pat, pat) == s
    decreases |s|
  {
    if |s| >= |pat| {
      if s[..|pat|] == pat {
        ReplaceAllSelf(s[|pat|..], pat);
        assert s == pat + s[|pat|..];
      } else {
        ReplaceAllSelf(s[1..], pat);
        assert s == [s[0]] + s[1..];
      }
    }
  }

  /** An occurrence at the very start is replaced and the scan goes on after it. */
  lemma ReplaceAllAtStart(pat: string, t: string, rep: string)
    requires pat != []
    ensures ReplaceAll(pat + t, pat, rep) == rep + ReplaceAll(t, pat, rep)
  {
    var s := pat + t;
    assert s[..|pat|] == pat && s[|pat|..] == t;
  }

  /** A pattern holding a character that `s` lacks leaves `s` unchanged. */
  lemma ReplaceAllAbsentChar(s: string, pat: string, rep: string, k: int)
    requires 0 <= k < |pat| && pat[k] !in s
    ensures ReplaceAll(s, pat, rep) == s
  {
    forall i ensures !OccursAt(s, pat, i) {
      if OccursAt(s, pat, i) {
        OccursChars(s, pat, i, k);
      }
    }
    ReplaceAllNoMatch(s, pat, rep);
  }

  /** A prefix in which no occurrence starts is copied through unchanged. */
  lemma {:induction false} ReplaceAllSkip(s: string, pat: string, rep: string, n: int)
    requires pat != [] && 0 <= n <= |s|
    requires forall j | 0 <= j < n :: !OccursAt(s, pat, j)
    ensures ReplaceAll(s, pat, rep) == s[..n] + ReplaceAll(s[n..], pat, rep)
    decreases n
  {
    if n == 0 {
      assert s[..0] == [] && s[0..] == s;
    } else if |s| < |pat| {
      assert ReplaceAll(s, pat, rep) == s;
      assert ReplaceAll(s[n..], pat, rep) == s[n..];
      assert s[..n] + s[n..] == s;
    } else {
      assert !OccursAt(s, pat, 0);
      assert s[..|pat|] != pat;
      forall j | 0 <= j < n - 1 ensures !OccursAt(s[1..], pat, j) {
        OccursShift(s, pat, j);
      }
      ReplaceAllSkip(s[1..], pat, rep, n - 1);
      assert s[1..][n - 1..] == s[n..];
      assert ReplaceAll(s, pat, rep) == [s[0]] + ReplaceAll(s[1..], pat, rep);
      ConsPrefix(s, n, ReplaceAll(s[1..], pat, rep), ReplaceAll(s[n..], pat, rep));
    }
  }

  /** The first character, then what follows it up to `n`, is the prefix up to `n`. */
  lemma ConsPrefix(s: string, n: int, x: string, r: string)
    requires 1 <= n <= |s|
    requires x == s[1..][..n - 1] + r
    ensures [s[0]] + x == s[..n] + r
  {
    assert s[1..][..n - 1] == s[1..n];
    assert [s[0]] + s[1..n] == s[..n];
  }

  /** No occurrence starts inside a prefix that lacks the pattern's first character. */
  lemma NoneInPlainPrefix(u: string, t: string, pat: string)
    requires pat != [] && pat[0] !in u
    ensures forall j | 0 <= j < |u| :: !OccursAt(u + t, pat, j)
  {
    var s := u + t;
    forall j | 0 <= j < |u| ensures !OccursAt(s, pat, j) {
      assert s[j] == u[j];
      if j + |pat| <= |s| {
        assert s[j..j + |pat|][0] == s[j];
      }
    }
  }

  /** A prefix that lacks the pattern's first character is copied through by the global replace. */
  lemma ReplaceAllPlainPrefix(u: string, t: string, pat: string, rep: string)
    requires pat != [] && pat[0] !in u
    ensures ReplaceAll(u + t, pat, rep) == u + ReplaceAll(t, pat, rep)
  {
    var s := u + t;
    NoneInPlainPrefix(u, t, pat);
    ReplaceAllSkip(s, pat, rep, |u|);
    assert s[..|u|] == u && s[|u|..] == t;
  }

  /** A prefix that lacks the pattern's first character is copied through by the first-occurrence replace. */
  lemma ReplaceFirstPlainPrefix(u: string, t: string, pat: string, rep: string)
    requires pat != [] && pat[0] !in u
    ensures ReplaceFirst(u + t, pat, rep) == u + ReplaceFirst(t, pat, rep)
  {
    IndexOfBehindPrefix(u, t, pat);
    var i := IndexOf(t, pat);
    if i >= 0 {
      ReplaceFirstShift(u, t, pat, rep, IndexOf(u + t, pat), i);
    }
  }

  /** When the first occurrence in `u + t` is the first one in `t`, moved past `u`, the splice happens inside `t`. */
  lemma ReplaceFirstShift(u: string, t: string, pat: string, rep: string, k: int, i: int)
    requires i == IndexOf(t, pat) && 0 <= i && k == IndexOf(u + t, pat) && k == i + |u|
    ensures ReplaceFirst(u + t, pat, rep) == u + ReplaceFirst(t, pat, rep)
  {
    SpliceEquation(u, t, rep, k, i, |pat|, ReplaceFirst(u + t, pat, rep), ReplaceFirst(t, pat, rep));
  }

  /** Behind a prefix that lacks the pattern's first character, the first occurrence is the one in `t`, shifted. */
  lemma {:induction false} IndexOfBehindPrefix(u: string, t: string, pat: string)
    requires pat != [] && pat[0] !in u
    ensures IndexOf(u + t, pat) == if IndexOf(t, pat) < 0 then -1 else IndexOf(t, pat) + |u|
    decreases |u|
  {
    var s := u + t;
    if u == [] {
      assert s == t;
    } else {
      assert pat[0] !in u[1..] by {
        forall k | 0 <= k < |u[1..]| ensures u[1..][k] != pat[0] {
          assert u[1..][k] == u[k + 1];
        }
      }
      IndexOfBehindPrefix(u[1..], t, pat);
      assert s[1..] == u[1..] + t;
      if |pat| <= |s| {
        assert s[..|pat|][0] == u[0];
      }
    }
  }

  /** A splice into `u + t` at `k`, past `u`, equals `u` followed by the same splice into `t` at `i`. */
  lemma SpliceEquation(u: string, t: string, rep: string, k: int, i: int, n: int, x: string, y: string)
    requires 0 <= i && i + n <= |t| && 0 <= n && k == i + |u|
    requires x == (u + t)[..k] + rep + (u + t)[k + n..]
    requires y == t[..i] + rep + t[i + n..]
    ensures x == u + y
  {
    assert (u + t)[..k] == u + t[..i];
    assert (u + t)[k + n..] == t[i + n..];
  }

  /** Cuts `s` at each leftmost non-overlapping occurrence of `pat` (`s.split(pat)`). */
  function Split(s: string, pat: string): (parts: seq<string>)
    requires pat != []
    ensures |parts| >= 1
    decreases |s|
  {
    var i := IndexOf(s, pat);
    if i < 0 then [s] else [s[..i]] + Split(s[i + |pat|..], pat)
  }

  /** Glues `parts` together with `sep` between neighbours (`parts.join(sep)`). */
  function JoinWith(parts: seq<string>, sep: string): string
  {
    if |parts| == 0 then ""
    else if |parts| == 1 then parts[0]
    else parts[0] + sep + JoinWith(parts[1..], sep)
  }

  /** The global replace agrees with its split/join reading. */
  lemma {:induction false} ReplaceAllIsSplitJoin(s: string, pat: string, rep: string)
    requires pat != []
    ensures ReplaceAll(s, pat, rep) == JoinWith(Split(s, pat), rep)
    decreases |s|
  {
    var i := IndexOf(s, pat);
    IndexOfLeftmost(s, pat);
    if i < 0 {
      ReplaceAllNoMatch(s, pat, rep);
    } else {
      var rest := s[i + |pat|..];
      ReplaceAllSkip(s, pat, rep, i);
      var t := s[i..];
      assert t[..|pat|] == pat;
      assert t[|pat|..] == rest;
      ReplaceAllIsSplitJoin(rest, pat, rep);
      assert Split(s, pat) == [s[..i]] + Split(rest, pat);
      assert ([s[..i]] + Split(rest, pat))[1..] == Split(rest, pat);
    }
  }

  /** Splitting at `pat` and joining with `pat` gives back the original string. */
  lemma SplitJoinRoundTrip(s: string, pat: string)
    requires pat != []
    ensures JoinWith(Split(s, pat), pat) == s
  {
    ReplaceAllIsSplitJoin(s, pat, pat);
    ReplaceAllSelf(s, pat);
  }

  /** No piece of a split holds an occurrence of the separator. */
  lemma {:induction false} SplitPiecesFree(s: string, pat: string, k: int)
    requires pat != [] && 0 <= k < |Split(s, pat)|
    ensures forall i :: !OccursAt(Split(s, pat)[k], pat, i)
    decreases |s|
  {
    var i := IndexOf(s, pat);
    IndexOfLeftmost(s, pat);
    if i >= 0 {
      if k == 0 {
        forall j ensures !OccursAt(s[..i], pat, j) {
          if 0 <= j && j + |pat| <= i {
            assert s[..i][j..j + |pat|] == s[j..j + |pat|];
            assert !OccursAt(s, pat, j);
          }
        }
      } else {
        SplitPiecesFree(s[i + |pat|..], pat, k - 1);
      }
    }
  }

  /** The characters `: * ? " < > |` that the templated name may not contain. */
  predicate Illegal(c: char)
  {
    c == ':' || c == '*' || c == '?' || c == '"' || c == '<' || c == '>' || c == '|'
  }

  /** `name.replace(/[:*?""<>|]/g, '_')`. */
  function Sanitize(s: string): (r: string)
    ensures |r| == |s|
    ensures forall i | 0 <= i < |s| :: r[i] == (if Illegal(s[i]) then '_' else s[i])
    ensures forall i | 0 <= i < |r| :: !Illegal(r[i])
  {
    if s == [] then []
    else [if Illegal(s[0]) then '_' else s[0]] + Sanitize(s[1..])
  }

  /** Sanitising twice changes nothing more. */
  lemma SanitizeIdempotent(s: string)
    ensures Sanitize(Sanitize(s)) == Sanitize(s)
  {
  }

  /** A name without illegal characters is kept as it is. */
  lemma SanitizeLegal(s: string)
    requires forall i | 0 <= i < |s| :: !Illegal(s[i])
    ensures Sanitize(s) == s
  {
  }

  /** Index of the last `/` in `p`, or -1 when there is none. */
  function LastSlash(p: string): (r: int)
    ensures -1 <= r < |p|
    ensures r >= 0 ==> p[r] == '/'
    ensures forall j | r < j < |p| :: p[j] != '/'
  {
    if p == [] then -1
    else if p[|p| - 1] == '/' then |p| - 1
    else LastSlash(p[..|p| - 1])
  }

  /** `path.basename`: the part of `p` after its last `/` (all of `p` when it has none). */
  function Basename(p: string): (r: string)
    ensures '/' !in r
    ensures |r| <= |p| && r == p[|p| - |r|..]
    ensures |r| < |p| ==> p[|p| - |r| - 1] == '/'
  {
    var k := LastSlash(p);
    var r := p[k + 1..];
    assert forall j | 0 <= j < |r| :: r[j] != '/' by {
      forall j | 0 <= j < |r| ensures r[j] != '/' {
        assert r[j] == p[k + 1 + j];
      }
    }
    r
  }

  /** The three facts of Basename's contract single out one string. */
  lemma BasenameUnique(p: string, r: string)
    requires '/' !in r
    requires |r| <= |p| && r == p[|p| - |r|..]
    requires |r| < |p| ==> p[|p| - |r| - 1] == '/'
    ensures Basename(p) == r
  {
    var b := Basename(p);
    assert |b| == |r|;
  }

  /** The basename of a concatenation comes from the right part unless it has no `/`. */
  lemma BasenameAppend(a: string, b: string)
    ensures Basename(a + b) == if '/' in b then Basename(b) else Basename(a) + b
  {
    var p := a + b;
    if '/' in b {
      var r := Basename(b);
      assert |r| < |b|;
      assert p[|p| - |r|..] == b[|b| - |r|..];
      assert p[|p| - |r| - 1] == b[|b| - |r| - 1];
      BasenameUnique(p, r);
    } else {
      var r := Basename(a) + b;
      assert p[|p| - |r|..] == a[|a| - |Basename(a)|..] + b;
      if |r| < |p| {
        assert p[|p| - |r| - 1] == a[|a| - |Basename(a)| - 1];
      }
      BasenameUnique(p, r);
    }
  }

  /** A path is its directory part, empty or ending in `/`, followed by its basename. */
  lemma BasenameSplit(p: string)
    ensures p == p[..|p| - |Basename(p)|] + Basename(p)
    ensures var d := p[..|p| - |Basename(p)|]; d == [] || d[|d| - 1] == '/'
  {
    var b := Basename(p);
    var d := p[..|p| - |b|];
    assert p == d + p[|p| - |b|..];
  }

  /** A name without `/` is its own basename. */
  lemma BasenamePlain(p: string)
    requires '/' !in p
    ensures Basename(p) == p
  {
    BasenameUnique(p, p);
  }

  /**
   * `path.dirname`: `p` before its last `/`; `/` when that slash is the first
   * character, `.` when there is no slash.
   */
  function Dirname(p: string): (r: string)
    ensures '/' !in p ==> r == "."
    ensures LastSlash(p) == 0 ==> r == "/"
    ensures |Basename(p)| + 1 < |p| ==> p == r + "/" + Basename(p)
  {
    var k := LastSlash(p);
    if k < 0 then "." else if k == 0 then "/" else p[..k]
  }

  /** What `path.join` puts before the name: nothing, the directory, or the directory and a `/`. */
  function DirPrefix(dir: string): (r: string)
    ensures r == [] || r[|r| - 1] == '/'
  {
    if dir == [] then [] else if dir[|dir| - 1] == '/' then dir else dir + "/"
  }

  /** Behind a directory part, a name keeps its basename. */
  lemma DirPrefixBasename(dir: string, name: string)
    ensures Basename(DirPrefix(dir) + name) == Basename(name)
  {
    var p := DirPrefix(dir);
    BasenameAppend(p, name);
    if '/' !in name {
      if p != [] {
        BasenameUnique(p, []);
      }
      assert Basename(p) + name == name;
      BasenamePlain(name);
    }
  }

  /** A name without `/` behind a directory without a trailing `/` and a separator has that directory as its dirname. */
  lemma DirnameBehind(dir: string, name: string)
    ensures dir != [] && dir[|dir| - 1] != '/' && '/' !in name ==> Dirname(dir + "/" + name) == dir
  {
    if dir != [] && dir[|dir| - 1] != '/' && '/' !in name {
      var p := dir + "/" + name;
      BasenameAppend(dir + "/", name);
      BasenameUnique(dir + "/", []);
      assert Basename(p) == name;
      assert p == Dirname(p) + "/" + name;
      assert Dirname(p) == p[..|dir|];
    }
  }

  /**
   * `path.join(dir, name)` for two parts: one `/` between them, none added
   * after a trailing one. The file lands in `dir`: its dirname is `dir`.
   */
  function Join(dir: string, name: string): (r: string)
    ensures Basename(r) == Basename(name)
    ensures |name| <= |r| && r[|r| - |name|..] == name
    ensures dir != [] && dir[|dir| - 1] != '/' && '/' !in name ==> Dirname(r) == dir
  {
    DirPrefixBasename(dir, name);
    DirnameBehind(dir, name);
    var r := DirPrefix(dir) + name;
    assert r[|r| - |name|..] == name;
    r
  }
}
