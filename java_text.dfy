/**
 * The few java.lang.String operations the sort-string parser relies on, written out
 * so that their edge cases are explicit: trim(), toLowerCase(), contains(),
 * replace(t, ""), equalsIgnoreCase() and split(String) with a one-char separator that is
 * no regular-expression meta char, with its dropped trailing pieces.
 */
module JavaText {

  /** trim() removes every leading and trailing char whose code is at most U+0020. */
  predicate IsTrimmable(c: char) {
    c <= ' '
  }

  function TrimStart(s: string): (r: string)
    ensures |r| <= |s| && r == s[|s| - |r|..]
    ensures r != [] ==> !IsTrimmable(r[0])
    ensures forall i :: 0 <= i < |s| - |r| ==> IsTrimmable(s[i])
    decreases |s|
  {
    if s != [] && IsTrimmable(s[0]) then TrimStart(s[1..]) else s
  }

  function TrimEnd(s: string): (r: string)
    ensures |r| <= |s| && r == s[..|r|]
    ensures r != [] ==> !IsTrimmable(r[|r| - 1])
    ensures forall i :: |r| <= i < |s| ==> IsTrimmable(s[i])
    decreases |s|
  {
    if s != [] && IsTrimmable(s[|s| - 1]) then TrimEnd(s[..|s| - 1]) else s
  }

  /** String.trim() */
  function Trim(s: string): string {
    TrimEnd(TrimStart(s))
  }

  /** s.trim().isEmpty() */
  predicate IsBlank(s: string) {
    Trim(s) == []
  }

  /** trim() keeps a contiguous middle part of s that neither starts nor ends with white space, and cuts only white space. */
  lemma TrimIsInnerPart(s: string)
    ensures exists a, b :: 0 <= a <= b <= |s| && Trim(s) == s[a..b]
                           && forall i :: 0 <= i < a || b <= i < |s| ==> IsTrimmable(s[i])
    ensures Trim(s) != [] ==> !IsTrimmable(Trim(s)[0]) && !IsTrimmable(Trim(s)[|Trim(s)| - 1])
  {
    var a, b := TrimBounds(s);
    TrimEndsNotWhite(s);
  }

  /** Where trim() cuts s: the kept part is s[a..b]. */
  lemma TrimBounds(s: string) returns (a: nat, b: nat)
    ensures a <= b <= |s| && Trim(s) == s[a..b]
    ensures forall i :: 0 <= i < a || b <= i < |s| ==> IsTrimmable(s[i])
  {
    var t := TrimStart(s);
    var u := TrimEnd(t);
    assert Trim(s) == u;
    a := |s| - |t|;
    b := a + |u|;
    assert t == s[a..] && u == t[..|u|];
    TrimCutsWhiteSpace(s, t, u, a, b);
  }

  /** What trim() keeps neither starts nor ends with white space. */
  lemma TrimEndsNotWhite(s: string)
    ensures Trim(s) != [] ==> !IsTrimmable(Trim(s)[0]) && !IsTrimmable(Trim(s)[|Trim(s)| - 1])
  {
    var t := TrimStart(s);
    var u := TrimEnd(t);
    if u != [] {
      assert u[0] == t[0];
    }
  }

  /**
   * When t = s[a..] follows a white-space lead and u = t[..|u|] is followed by white space
   * in t, then u is s[a..b], and everything outside [a, b) is white space.
   */
  lemma TrimCutsWhiteSpace(s: string, t: string, u: string, a: nat, b: nat)
    requires a <= |s| && t == s[a..] && |u| <= |t| && u == t[..|u|] && b == a + |u|
    requires forall i :: 0 <= i < a ==> IsTrimmable(s[i])
    requires forall i :: |u| <= i < |t| ==> IsTrimmable(t[i])
    ensures b <= |s| && u == s[a..b]
    ensures forall i :: 0 <= i < a || b <= i < |s| ==> IsTrimmable(s[i])
  {
    forall i | b <= i < |s|
      ensures IsTrimmable(s[i])
    {
      assert s[i] == t[i - a];
    }
  }

  /** A string is blank exactly when all of its chars are white space in trim()'s sense. */
  lemma BlankIffAllTrimmable(s: string)
    ensures IsBlank(s) <==> forall i :: 0 <= i < |s| ==> IsTrimmable(s[i])
  {
    var t := TrimStart(s);
    var a := |s| - |t|;
    assert 0 <= a <= |s| && t == s[a..];
    assert a < |s| ==> t[0] == s[a];
    assert t != [] ==> TrimEnd(t) != [];
  }

  /** toLowerCase() on the ASCII letters; every other char is kept. */
  function LowerChar(c: char): (r: char)
    ensures 'A' <= c <= 'Z' ==> r as int == c as int + 32
    ensures !('A' <= c <= 'Z') ==> r == c
    ensures !('A' <= r <= 'Z')
  {
    if 'A' <= c <= 'Z' then (c as int + 32) as char else c
  }

  /** String.toLowerCase() */
  function Lower(s: string): (r: string)
    ensures |r| == |s| && forall i :: 0 <= i < |s| ==> r[i] == LowerChar(s[i])
  {
    seq(|s|, i requires 0 <= i < |s| => LowerChar(s[i]))
  }

  /** A string with no upper-case ASCII letter is its own lower case. */
  lemma LowerOfLowerCase(s: string)
    requires forall i :: 0 <= i < |s| ==> !('A' <= s[i] <= 'Z')
    ensures Lower(s) == s
  {
  }

  /** String.equalsIgnoreCase(), on ASCII letters. */
  predicate EqualsIgnoreCase(a: string, b: string) {
    Lower(a) == Lower(b)
  }

  /** equalsIgnoreCase holds exactly when the lengths agree and the chars agree once lower-cased. */
  lemma EqualsIgnoreCaseCharwise(a: string, b: string)
    ensures EqualsIgnoreCase(a, b) <==> |a| == |b| && forall i :: 0 <= i < |a| ==> LowerChar(a[i]) == LowerChar(b[i])
  {
    if |a| == |b| && forall i :: 0 <= i < |a| ==> LowerChar(a[i]) == LowerChar(b[i]) {
      assert forall i :: 0 <= i < |a| ==> Lower(a)[i] == Lower(b)[i];
    }
  }

  predicate StartsWith(s: string, t: string) {
    |t| <= |s| && s[..|t|] == t
  }

  /** String.contains(t) */
  predicate Contains(s: string, t: string)
    decreases |s|
  {
    StartsWith(s, t) || (s != [] && Contains(s[1..], t))
  }

  /** s contains t exactly when t occurs at some position of s. */
  lemma {:induction false} ContainsIffOccurs(s: string, t: string)
    ensures Contains(s, t) <==> exists i :: 0 <= i <= |s| - |t| && StartsWith(s[i..], t)
    decreases |s|
  {
    if s != [] {
      ContainsIffOccurs(s[1..], t);
      if Contains(s[1..], t) {
        var i :| 0 <= i <= |s[1..]| - |t| && StartsWith(s[1..][i..], t);
        assert s[1..][i..] == s[i + 1..];
      }
      if i :| 0 < i <= |s| - |t| && StartsWith(s[i..], t) {
        assert s[1..][i - 1..] == s[i..];
      }
      assert s[0..] == s;
    } else {
      assert s[0..] == s;
    }
  }

  /** s.replace(t, ""): every non-overlapping occurrence of t, scanned left to right, is removed. */
  function RemoveAll(s: string, t: string): (r: string)
    requires t != []
    ensures |r| <= |s|
    decreases |s|
  {
    if |s| < |t| then s
    else if s[..|t|] == t then RemoveAll(s[|t|..], t)
    else [s[0]] + RemoveAll(s[1..], t)
  }

  /** Removing a string that does not occur leaves the input as it is. */
  lemma {:induction false} RemoveAbsent(s: string, t: string)
    requires t != [] && !Contains(s, t)
    ensures RemoveAll(s, t) == s
    decreases |s|
  {
    if |s| >= |t| {
      RemoveAbsent(s[1..], t);
    }
  }

  /** Where t occurs, replace(t, "") removes at least one occurrence: the text loses at least |t| chars. */
  lemma {:induction false} RemovePresent(s: string, t: string)
    requires t != [] && Contains(s, t)
    ensures |RemoveAll(s, t)| <= |s| - |t|
    decreases |s|
  {
    if !StartsWith(s, t) {
      RemovePresent(s[1..], t);
    }
  }

  /** replace(t, "") changes the text exactly when t occurs in it. */
  lemma RemoveChangesIffPresent(s: string, t: string)
    requires t != []
    ensures RemoveAll(s, t) != s <==> Contains(s, t)
  {
    if Contains(s, t) {
      RemovePresent(s, t);
    } else {
      RemoveAbsent(s, t);
    }
  }

  /** A string without the first char of t holds no occurrence of t, so removing t keeps it. */
  lemma {:induction false} RemoveWithoutLead(s: string, t: string)
    requires t != [] && t[0] !in s
    ensures RemoveAll(s, t) == s
    decreases |s|
  {
    if |s| >= |t| {
      assert s[..|t|][0] == s[0];
      RemoveWithoutLead(s[1..], t);
      assert [s[0]] + s[1..] == s;
    }
  }

  /** Every piece of s between occurrences of sep, empty ones included. */
  function Pieces(s: string, sep: char): (r: seq<string>)
    ensures |r| >= 1
    decreases |s|
  {
    if s == [] then [[]]
    else
      var rest := Pieces(s[1..], sep);
      if s[0] == sep then [[]] + rest else [[s[0]] + rest[0]] + rest[1..]
  }

  /** split() with no limit drops every trailing empty piece. */
  function DropTrailingEmpty(p: seq<string>): (r: seq<string>)
    ensures r <= p
    ensures r != [] ==> r[|r| - 1] != []
    ensures forall i :: |r| <= i < |p| ==> p[i] == []
  {
    if p == [] then []
    else if p[|p| - 1] == [] then DropTrailingEmpty(p[..|p| - 1])
    else p
  }

  /**
   * String.split(sep) for a separator that is not a regular-expression meta char:
   * with no occurrence the result is [s] (so "" gives [""]); otherwise the pieces
   * between occurrences with the trailing empty ones dropped (so "," gives []).
   */
  function Split(s: string, sep: char): seq<string> {
    if sep !in s then [s] else DropTrailingEmpty(Pieces(s, sep))
  }

  /** String.join(sep, p): the inverse of Pieces. */
  function Join(p: seq<string>, sep: char): string
    decreases |p|
  {
    if p == [] then [] else if |p| == 1 then p[0] else p[0] + [sep] + Join(p[1..], sep)
  }

  lemma {:induction false} PiecesHaveNoSeparator(s: string, sep: char)
    ensures forall i :: 0 <= i < |Pieces(s, sep)| ==> sep !in Pieces(s, sep)[i]
    decreases |s|
  {
    if s != [] {
      PiecesHaveNoSeparator(s[1..], sep);
    }
  }

  /** Joining the pieces with the separator gives back the string. */
  lemma {:induction false} JoinPieces(s: string, sep: char)
    ensures Join(Pieces(s, sep), sep) == s
    decreases |s|
  {
    if s != [] {
      var rest := Pieces(s[1..], sep);
      JoinPieces(s[1..], sep);
      if s[0] == sep {
        assert Pieces(s, sep)[1..] == rest;
        assert s == [sep] + s[1..];
      } else {
        var p := Pieces(s, sep);
        if |rest| == 1 {
          assert s == [s[0]] + s[1..];
        } else {
          assert p[1..] == rest[1..];
          assert Join(rest, sep) == rest[0] + [sep] + Join(rest[1..], sep);
          assert s == [s[0]] + s[1..];
        }
      }
    }
  }

  /** A piece with no separator in it splits into itself alone. */
  lemma {:induction false} PiecesOfPlain(a: string, sep: char)
    requires sep !in a
    ensures Pieces(a, sep) == [a]
    decreases |a|
  {
    if a != [] {
      PiecesOfPlain(a[1..], sep);
      assert [a[0]] + a[1..] == a;
    }
  }

  /** The first piece ends at the first separator. */
  lemma {:induction false} PiecesAtSeparator(a: string, b: string, sep: char)
    requires sep !in a
    ensures Pieces(a + [sep] + b, sep) == [a] + Pieces(b, sep)
    decreases |a|
  {
    if a == [] {
      assert a + [sep] + b == [sep] + b;
      assert ([sep] + b)[1..] == b;
    } else {
      PiecesAtSeparator(a[1..], b, sep);
      assert (a + [sep] + b)[1..] == a[1..] + [sep] + b;
      assert [a[0]] + a[1..] == a;
    }
  }

  /** Trailing empty pieces only add trailing separators to the joined string. */
  lemma {:induction false} JoinDroppedPrefix(p: seq<string>, sep: char)
    ensures var j := Join(DropTrailingEmpty(p), sep);
            j <= Join(p, sep) && forall k :: |j| <= k < |Join(p, sep)| ==> Join(p, sep)[k] == sep
    decreases |p|
  {
    if p != [] && p[|p| - 1] == [] {
      var q := p[..|p| - 1];
      JoinDroppedPrefix(q, sep);
      JoinSnoc(q, sep);
      assert q + [[]] == p;
    }
  }

  /** Join(q + [[]]) is Join(q) followed by one separator, unless q is empty. */
  lemma {:induction false} JoinSnoc(q: seq<string>, sep: char)
    ensures Join(q + [[]], sep) == if q == [] then [] else Join(q, sep) + [sep]
    decreases |q|
  {
    if |q| > 1 {
      JoinSnoc(q[1..], sep);
      assert (q + [[]])[1..] == q[1..] + [[]];
    } else if |q| == 1 {
      assert (q + [[]])[1..] == [[]];
    }
  }

  /**
   * split() round trip: no piece holds the separator, and joining the pieces gives s
   * up to the separators that ended it (the dropped trailing empty pieces).
   */
  lemma SplitRoundTrip(s: string, sep: char)
    ensures forall i :: 0 <= i < |Split(s, sep)| ==> sep !in Split(s, sep)[i]
    ensures var j := Join(Split(s, sep), sep);
            j <= s && forall k :: |j| <= k < |s| ==> s[k] == sep
  {
    if sep in s {
      PiecesHaveNoSeparator(s, sep);
      JoinPieces(s, sep);
      JoinDroppedPrefix(Pieces(s, sep), sep);
    }
  }

  /** A string holding the separator once, with something after it, splits into the two sides. */
  lemma SplitTwo(a: string, b: string, sep: char)
    requires sep !in a && sep !in b && b != []
    ensures Split(a + [sep] + b, sep) == [a, b]
  {
    assert (a + [sep] + b)[|a|] == sep;
    PiecesAtSeparator(a, b, sep);
    PiecesOfPlain(b, sep);
  }
}
