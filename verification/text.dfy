/**
  The string primitives the classifier is built from, with the meaning Python
  gives them: `sep in s`, `s.find(sep)`, `s.split(sep)`, `s.endswith(suffix)`
  and an ASCII approximation of `s.lower()`.
 */
module Text {

  datatype Option<+T> = None | Some(value: T)

  /** `sep` occurs in `s` starting at index `i`. */
  predicate OccursAt(s: string, sep: string, i: int)
  {
    0 <= i && i + |sep| <= |s| && s[i..i + |sep|] == sep
  }

  /** Python's `sep in s`: the empty string occurs in every string. */
  predicate Occurs(s: string, sep: string)
  {
    exists i | 0 <= i <= |s| - |sep| :: OccursAt(s, sep, i)
  }

  /** Python's `s.endswith(suffix)`. */
  predicate EndsWith(s: string, suffix: string)
  {
    |suffix| <= |s| && s[|s| - |suffix|..] == suffix
  }

  lemma OccursAtShift(s: string, sep: string, j: int)
    requires |s| > 0 && j >= 0
    ensures OccursAt(s, sep, j + 1) <==> OccursAt(s[1..], sep, j)
  {
    if 0 <= j && j + 1 + |sep| <= |s| {
      assert s[1..][j..j + |sep|] == s[j + 1..j + 1 + |sep|];
    }
  }

  /** An occurrence in a suffix `s[k..]` is an occurrence in `s`, shifted by `k`. */
  lemma OccursAtDrop(s: string, k: nat, sep: string, j: int)
    requires k <= |s| && j >= 0
    ensures OccursAt(s[k..], sep, j) <==> OccursAt(s, sep, k + j)
  {
    if j + |sep| <= |s| - k {
      assert s[k..][j..j + |sep|] == s[k + j..k + j + |sep|];
    }
  }

  /** Python's `s.find(sep)` for a non-empty separator: the leftmost occurrence. */
  function Find(s: string, sep: string): (r: Option<nat>)
    requires |sep| > 0
    ensures r.Some? ==> OccursAt(s, sep, r.value)
    decreases |s|
  {
    if |s| < |sep| then None
    else if s[..|sep|] == sep then Some(0)
    else
      match Find(s[1..], sep)
      case None => None
      case Some(i) => Some(i + 1)
  }

  /** `find` reports the leftmost occurrence, and nothing when there is none. */
  lemma {:induction false} FindSpec(s: string, sep: string)
    requires |sep| > 0
    ensures Find(s, sep).Some? ==> OccursAt(s, sep, Find(s, sep).value)
    ensures Find(s, sep).Some? ==> forall j :: 0 <= j < Find(s, sep).value ==> !OccursAt(s, sep, j)
    ensures Find(s, sep).None? ==> forall j :: !OccursAt(s, sep, j)
    decreases |s|
  {
    if |s| >= |sep| && s[..|sep|] != sep {
      FindSpec(s[1..], sep);
      forall j | 0 <= j ensures OccursAt(s, sep, j + 1) <==> OccursAt(s[1..], sep, j) {
        OccursAtShift(s, sep, j);
      }
      assert !OccursAt(s, sep, 0);
      forall j | 0 < j ensures OccursAt(s, sep, j) <==> OccursAt(s[1..], sep, j - 1) {
        OccursAtShift(s, sep, j - 1);
      }
    }
  }

  /** Joins pieces with `sep` between neighbours, Python's `sep.join(pieces)`. */
  function Join(pieces: seq<string>, sep: string): string
    requires |pieces| > 0
  {
    if |pieces| == 1 then pieces[0] else pieces[0] + sep + Join(pieces[1..], sep)
  }

  /**
    Python's `s.split(sep)` for a non-empty separator: the string is cut at the
    leftmost occurrence, and scanning resumes after that occurrence, so
    overlapping occurrences are not cut twice.
   */
  function Split(s: string, sep: string): (r: seq<string>)
    requires |sep| > 0
    ensures |r| > 0
    ensures |r[0]| <= |s| && s[..|r[0]|] == r[0]
    decreases |s|
  {
    match Find(s, sep)
    case None => [s]
    case Some(i) => [s[..i]] + Split(s[i + |sep|..], sep)
  }

  /** No piece of `s.split(sep)` contains `sep`. */
  lemma {:induction false} SplitPiecesFree(s: string, sep: string)
    requires |sep| > 0
    ensures forall k :: 0 <= k < |Split(s, sep)| ==> !Occurs(Split(s, sep)[k], sep)
    decreases |s|
  {
    FindSpec(s, sep);
    match Find(s, sep)
    case None =>
      assert !Occurs(s, sep);
    case Some(i) =>
      var head := s[..i];
      assert !Occurs(head, sep) by {
        forall j | OccursAt(head, sep, j) ensures false {
          assert s[j..j + |sep|] == head[j..j + |sep|];
          assert OccursAt(s, sep, j);
        }
      }
      SplitPiecesFree(s[i + |sep|..], sep);
  }

  /** Joining the pieces of `s.split(sep)` with `sep` gives back `s`. */
  lemma {:induction false} SplitJoin(s: string, sep: string)
    requires |sep| > 0
    ensures Join(Split(s, sep), sep) == s
    decreases |s|
  {
    var f := Find(s, sep);
    FindSpec(s, sep);
    if f.Some? {
      var i := f.value;
      var rest := s[i + |sep|..];
      SplitJoin(rest, sep);
      JoinCons(s[..i], Split(rest, sep), sep);
      assert s[i..i + |sep|] == sep;
      assert s == s[..i] + s[i..i + |sep|] + rest;
    }
  }

  lemma JoinCons(x: string, xs: seq<string>, sep: string)
    requires |xs| > 0
    ensures Join([x] + xs, sep) == x + sep + Join(xs, sep)
  {
    assert ([x] + xs)[1..] == xs;
  }

  /** The last element of a non-empty sequence, Python's `xs[-1]`. */
  function Last<T>(xs: seq<T>): T
    requires |xs| > 0
  {
    xs[|xs| - 1]
  }

  /** The last piece of a join stands after the last separator. */
  lemma {:induction false} JoinSnoc(xs: seq<string>, sep: string)
    requires |xs| >= 2
    ensures Join(xs, sep) == Join(xs[..|xs| - 1], sep) + sep + Last(xs)
    decreases |xs|
  {
    if |xs| > 2 {
      JoinSnoc(xs[1..], sep);
      assert xs[..|xs| - 1][1..] == xs[1..][..|xs| - 2];
    }
  }

  /**
    The last piece of `s.split(sep)` is a suffix of `s`: all of `s` when `sep`
    does not occur, and otherwise preceded by an occurrence of `sep`.
   */
  lemma LastPiece(s: string, sep: string)
    requires |sep| > 0
    ensures var l := Last(Split(s, sep));
      && |l| <= |s| && s[|s| - |l|..] == l
      && (!Occurs(s, sep) ==> l == s)
      && (Occurs(s, sep) ==> |l| + |sep| <= |s| && OccursAt(s, sep, |s| - |l| - |sep|))
  {
    var pieces := Split(s, sep);
    var l := Last(pieces);
    SplitJoin(s, sep);
    FindOccurs(s, sep);
    if Occurs(s, sep) {
      assert |pieces| >= 2;
      JoinSnoc(pieces, sep);
      var front := Join(pieces[..|pieces| - 1], sep);
      assert s == front + sep + l;
      assert s[|s| - |l|..] == l;
      assert s[|front|..|front| + |sep|] == sep;
    }
  }

  lemma LastOfCons<T>(x: T, xs: seq<T>)
    requires |xs| > 0
    ensures Last([x] + xs) == Last(xs)
  {
  }

  /** `find` reports an index exactly when the separator occurs. */
  lemma FindOccurs(s: string, sep: string)
    requires |sep| > 0
    ensures Find(s, sep).Some? <==> Occurs(s, sep)
  {
    FindSpec(s, sep);
    if Find(s, sep).Some? {
      assert OccursAt(s, sep, Find(s, sep).value);
    }
  }

  /**
    The first piece of `s.split(sep)` is a prefix of `s` free of `sep`, and it is
    followed in `s` by `sep` or by nothing.
   */
  lemma FirstPiece(s: string, sep: string)
    requires |sep| > 0
    ensures var h := Split(s, sep)[0];
      && |h| <= |s| && s[..|h|] == h
      && !Occurs(h, sep)
      && (|h| == |s| || OccursAt(s, sep, |h|))
      && (forall j :: 0 <= j < |h| ==> !OccursAt(s, sep, j))
  {
    SplitPiecesFree(s, sep);
    FindSpec(s, sep);
  }

  /** Cutting at a first occurrence that lies right after `p`. */
  lemma SplitAtFirst(p: string, sep: string, t: string)
    requires |sep| > 0
    requires forall j :: 0 <= j < |p| ==> !OccursAt(p + sep + t, sep, j)
    ensures Split(p + sep + t, sep) == [p] + Split(t, sep)
  {
    var s := p + sep + t;
    assert s[|p|..|p| + |sep|] == sep;
    assert OccursAt(s, sep, |p|);
    FindSpec(s, sep);
    assert Find(s, sep) == Some(|p|);
    assert s[..|p|] == p;
    assert s[|p| + |sep|..] == t;
  }

  /** A string with no occurrence of `sep` is a single piece. */
  lemma SplitWhole(s: string, sep: string)
    requires |sep| > 0
    requires forall j :: !OccursAt(s, sep, j)
    ensures Split(s, sep) == [s]
  {
    FindSpec(s, sep);
  }

  /** A one-character separator occurs exactly when the character does. */
  lemma OccursChar(s: string, c: char)
    ensures Occurs(s, [c]) <==> c in s
  {
    if c in s {
      var i :| 0 <= i < |s| && s[i] == c;
      assert OccursAt(s, [c], i);
    }
    if Occurs(s, [c]) {
      var i :| 0 <= i <= |s| - 1 && OccursAt(s, [c], i);
      assert s[i..i + 1][0] == s[i];
    }
  }

  /** Whether `s` ends with `suffix` is decided by the last `|x|` characters when the suffix fits there. */
  lemma EndsWithAppend(p: string, x: string, suffix: string)
    requires |suffix| <= |x|
    ensures EndsWith(p + x, suffix) <==> EndsWith(x, suffix)
  {
    assert (p + x)[|p + x| - |suffix|..] == x[|x| - |suffix|..];
  }

  /** ASCII lowercase of one character; everything else is left alone. */
  function LowerChar(c: char): char
  {
    if 'A' <= c <= 'Z' then (c as int + 32) as char else c
  }

  /** An ASCII approximation of Python's `s.lower()`. */
  function Lower(s: string): (r: string)
    ensures |r| == |s|
    ensures forall i :: 0 <= i < |r| ==> !('A' <= r[i] <= 'Z')
    ensures forall i :: 0 <= i < |s| && !('A' <= s[i] <= 'Z') ==> r[i] == s[i]
    ensures forall i :: 0 <= i < |s| && 'A' <= s[i] <= 'Z' ==> r[i] == "abcdefghijklmnopqrstuvwxyz"[s[i] as int - 'A' as int]
  {
    seq(|s|, i requires 0 <= i < |s| => LowerChar(s[i]))
  }

  /** Lowercasing leaves no ASCII capital behind and does not change a lowercased string. */
  lemma LowerIdempotent(s: string)
    ensures forall i :: 0 <= i < |s| ==> !('A' <= Lower(s)[i] <= 'Z')
    ensures Lower(Lower(s)) == Lower(s)
  {
  }

  /** Lowercasing works character by character, so it distributes over concatenation. */
  lemma LowerAppend(a: string, b: string)
    ensures Lower(a + b) == Lower(a) + Lower(b)
  {
  }

  /** An occurrence inside a part is an occurrence inside the whole. */
  lemma OccursInAppend(a: string, b: string, sep: string)
    ensures Occurs(a, sep) ==> Occurs(a + b, sep)
    ensures Occurs(b, sep) ==> Occurs(a + b, sep)
  {
    if Occurs(a, sep) {
      var i :| 0 <= i <= |a| - |sep| && OccursAt(a, sep, i);
      assert (a + b)[i..i + |sep|] == a[i..i + |sep|];
      assert OccursAt(a + b, sep, i);
    }
    if Occurs(b, sep) {
      var i :| 0 <= i <= |b| - |sep| && OccursAt(b, sep, i);
      assert (a + b)[|a| + i..|a| + i + |sep|] == b[i..i + |sep|];
      assert OccursAt(a + b, sep, |a| + i);
    }
  }

  /** Inside an occurrence, the text agrees with the separator character by character. */
  lemma CharOfOccurrence(s: string, sep: string, i: int, j: int)
    requires OccursAt(s, sep, i) && 0 <= j < |sep|
    ensures s[i + j] == sep[j]
  {
    assert s[i..i + |sep|][j] == s[i + j];
  }

  /** A separator holding a character the text lacks does not occur in it. */
  lemma MissingCharNotOccurs(s: string, sep: string, j: int)
    requires 0 <= j < |sep| && sep[j] !in s
    ensures !Occurs(s, sep)
  {
    forall i | OccursAt(s, sep, i) ensures false {
      CharOfOccurrence(s, sep, i, j);
    }
  }

  /**
    In `a + b + c`, a character missing from `a` and `c` and found in `b` only
    at `m` can only sit at `|a| + m`.
   */
  lemma OnlyAt(a: string, b: string, c: string, ch: char, m: nat, i: int)
    requires ch !in a && ch !in c && m < |b| && ch !in b[..m] && ch !in b[m + 1..]
    requires 0 <= i < |a + b + c| && (a + b + c)[i] == ch
    ensures i == |a| + m
  {
  }
}
