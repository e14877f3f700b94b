/**
 * String helpers shared by the allow-list parsers: splitting on a separator,
 * joining, trimming and ASCII lower-casing.
 */
module Text {

  /** Java's String.trim() removes every character up to and including U+0020. */
  predicate IsSpace(c: char) {
    c <= ' '
  }

  /**
   * Splits `s` at every occurrence of `sep`, keeping empty pieces (so there is
   * always at least one piece, and n separators give n + 1 pieces).
   */
  function Split(s: string, sep: char): (parts: seq<string>)
    ensures |parts| >= 1
    ensures forall i :: 0 <= i < |parts| ==> sep !in parts[i]
  {
    if |s| == 0 then [""]
    else
      var rest := Split(s[1..], sep);
      if s[0] == sep then [""] + rest
      else [[s[0]] + rest[0]] + rest[1..]
  }

  /** The inverse of Split: the pieces glued back together with `sep`. */
  function Join(parts: seq<string>, sep: char): string
    requires |parts| >= 1
  {
    if |parts| == 1 then parts[0] else parts[0] + [sep] + Join(parts[1..], sep)
  }

  /** Four parts joined: each separator stands between two neighbours. */
  lemma JoinFour(a: string, b: string, c: string, d: string, sep: char)
    ensures Join([a, b, c, d], sep) == a + [sep] + b + [sep] + c + [sep] + d
  {
    assert [a, b, c, d][1..] == [b, c, d];
    assert [b, c, d][1..] == [c, d];
    assert [c, d][1..] == [d];
    assert Join([c, d], sep) == c + [sep] + d;
    assert Join([b, c, d], sep) == b + [sep] + (c + [sep] + d);
    assert Join([a, b, c, d], sep) == a + [sep] + (b + [sep] + (c + [sep] + d));
  }

  lemma {:induction false} SplitNoSeparator(s: string, sep: char)
    requires sep !in s
    ensures Split(s, sep) == [s]
  {
    if |s| > 0 {
      SplitNoSeparator(s[1..], sep);
      assert [s[0]] + s[1..] == s;
    }
  }

  /** Splitting distributes over a separator placed between two strings. */
  lemma {:induction false} SplitAppend(a: string, sep: char, b: string)
    ensures Split(a + [sep] + b, sep) == Split(a, sep) + Split(b, sep)
  {
    if |a| == 0 {
      assert a + [sep] + b == [sep] + b;
      assert ([sep] + b)[1..] == b;
    } else {
      var s := a + [sep] + b;
      assert s[0] == a[0] && s[1..] == a[1..] + [sep] + b;
      SplitAppend(a[1..], sep, b);
    }
  }

  lemma {:induction false} JoinSplit(s: string, sep: char)
    ensures Join(Split(s, sep), sep) == s
  {
    if |s| > 0 {
      JoinSplit(s[1..], sep);
      var rest := Split(s[1..], sep);
      if s[0] == sep {
        assert ([""] + rest)[1..] == rest;
        assert s == [sep] + s[1..];
      } else {
        var parts := [[s[0]] + rest[0]] + rest[1..];
        assert parts[1..] == rest[1..];
        if |rest| > 1 {
          assert Join(rest, sep) == rest[0] + [sep] + Join(rest[1..], sep);
        }
        assert s == [s[0]] + s[1..];
      }
    }
  }

  lemma {:induction false} SplitJoin(parts: seq<string>, sep: char)
    requires |parts| >= 1
    requires forall i :: 0 <= i < |parts| ==> sep !in parts[i]
    ensures Split(Join(parts, sep), sep) == parts
  {
    SplitNoSeparator(parts[0], sep);
    if |parts| > 1 {
      SplitJoin(parts[1..], sep);
      SplitAppend(parts[0], sep, Join(parts[1..], sep));
      assert [parts[0]] + parts[1..] == parts;
    }
  }

  /** Every character of a join is the separator or comes from one of the pieces. */
  lemma {:induction false} JoinCharacters(parts: seq<string>, sep: char, c: char)
    requires |parts| >= 1 && c in Join(parts, sep)
    ensures c == sep || exists k :: 0 <= k < |parts| && c in parts[k]
  {
    if |parts| > 1 && c !in parts[0] && c != sep {
      JoinCharacters(parts[1..], sep, c);
      var k :| 0 <= k < |parts| - 1 && c in parts[1..][k];
      assert c in parts[k + 1];
    }
  }

  /** Concatenation of f applied to each element, in order (a stream's flatMap). */
  function FlatMap<T, U>(f: T -> seq<U>, s: seq<T>): seq<U> {
    if s == [] then [] else f(s[0]) + FlatMap(f, s[1..])
  }

  lemma {:induction false} FlatMapAppend<T, U>(f: T -> seq<U>, a: seq<T>, b: seq<T>)
    ensures FlatMap(f, a + b) == FlatMap(f, a) + FlatMap(f, b)
  {
    if a == [] {
      assert a + b == b;
    } else {
      assert (a + b)[0] == a[0] && (a + b)[1..] == a[1..] + b;
      FlatMapAppend(f, a[1..], b);
    }
  }

  lemma FlatMapSingleton<T, U>(f: T -> seq<U>, x: T)
    ensures FlatMap(f, [x]) == f(x)
  {
    assert [x][1..] == [];
  }

  lemma {:induction false} FlatMapMembers<T, U>(f: T -> seq<U>, s: seq<T>, u: U)
    ensures u in FlatMap(f, s) <==> exists x :: x in s && u in f(x)
  {
    if s != [] {
      FlatMapMembers(f, s[1..], u);
      assert forall x :: x in s <==> x == s[0] || x in s[1..];
    }
  }

  /** Drops leading white space. */
  function TrimLeft(s: string): (r: string)
    ensures |r| <= |s| && r == s[|s| - |r|..]
    ensures r == [] || !IsSpace(r[0])
    ensures forall k :: 0 <= k < |s| - |r| ==> IsSpace(s[k])
  {
    if |s| > 0 && IsSpace(s[0]) then TrimLeft(s[1..]) else s
  }

  /** Drops trailing white space. */
  function TrimRight(s: string): (r: string)
    ensures |r| <= |s| && r == s[..|r|]
    ensures r == [] || !IsSpace(r[|r| - 1])
    ensures forall k :: |r| <= k < |s| ==> IsSpace(s[k])
  {
    if |s| > 0 && IsSpace(s[|s| - 1]) then TrimRight(s[..|s| - 1]) else s
  }

  /** Java's String.trim(). */
  function Trim(s: string): string {
    TrimRight(TrimLeft(s))
  }

  /** A string without white space at either end. */
  predicate IsTrimmed(s: string) {
    s == [] || (!IsSpace(s[0]) && !IsSpace(s[|s| - 1]))
  }

  /** Everything of `s` outside s[i..j] is white space. */
  ghost predicate BorderIsSpace(s: string, i: nat, j: nat)
    requires i <= j <= |s|
  {
    (forall k :: 0 <= k < i ==> IsSpace(s[k])) && (forall k :: j <= k < |s| ==> IsSpace(s[k]))
  }

  /** Trim removes exactly the white-space border: it keeps the slice s[i..j],
      everything outside the slice is white space, and the slice has no white
      space at either end. */
  lemma TrimBounds(s: string) returns (i: nat, j: nat)
    ensures i <= j <= |s| && Trim(s) == s[i..j] && BorderIsSpace(s, i, j)
    ensures IsTrimmed(Trim(s))
  {
    var l := TrimLeft(s);
    var r := TrimRight(l);
    i := |s| - |l|;
    j := i + |r|;
    SliceOfSuffix(s, i, |r|);
    forall k | j <= k < |s|
      ensures IsSpace(s[k])
    {
      assert s[k] == l[k - i];
    }
  }

  lemma SliceOfSuffix(s: string, i: nat, n: nat)
    requires i + n <= |s|
    ensures s[i..][..n] == s[i..i + n]
  {
  }

  /** A string is left unchanged by Trim exactly when it has no white-space border. */
  lemma TrimFixpoint(s: string)
    ensures Trim(s) == s <==> IsTrimmed(s)
  {
    var i, j := TrimBounds(s);
  }

  /** Trim yields the empty string exactly for all-white-space input. */
  lemma TrimBlank(s: string)
    ensures Trim(s) == "" <==> forall k :: 0 <= k < |s| ==> IsSpace(s[k])
  {
    var i, j := TrimBounds(s);
  }

  /** Every character of Trim(s) already occurs in `s`. */
  lemma TrimKeepsCharacters(s: string, c: char)
    requires c in Trim(s)
    ensures c in s
  {
    var i, j := TrimBounds(s);
  }

  /** ASCII lower-casing of one character. */
  function LowerChar(c: char): char {
    if 'A' <= c <= 'Z' then (c as int + 32) as char else c
  }

  /** ASCII upper-casing of one character. */
  function UpperChar(c: char): char {
    if 'a' <= c <= 'z' then (c as int - 32) as char else c
  }

  /** String.toLowerCase() restricted to ASCII letters. */
  function ToLower(s: string): (r: string)
    ensures |r| == |s|
    ensures forall i :: 0 <= i < |s| ==> r[i] == LowerChar(s[i])
  {
    if s == [] then [] else [LowerChar(s[0])] + ToLower(s[1..])
  }

  /** String.toUpperCase() restricted to ASCII letters. */
  function ToUpper(s: string): (r: string)
    ensures |r| == |s|
    ensures forall i :: 0 <= i < |s| ==> r[i] == UpperChar(s[i])
  {
    if s == [] then [] else [UpperChar(s[0])] + ToUpper(s[1..])
  }

  /** String.equalsIgnoreCase() restricted to ASCII letters. */
  predicate EqualsIgnoreCase(a: string, b: string) {
    ToLower(a) == ToLower(b)
  }

  /** Lower-casing is determined character by character. */
  lemma FoldsTo(s: string, t: string)
    requires |s| == |t| && forall i :: 0 <= i < |s| ==> LowerChar(s[i]) == t[i]
    ensures ToLower(s) == t
  {
  }

  /** Strings of different lengths never agree up to case. */
  lemma DifferentLengthsDiffer(a: string, b: string)
    requires |a| != |b|
    ensures !EqualsIgnoreCase(a, b)
  {
    assert |ToLower(a)| != |ToLower(b)|;
  }

  lemma ToLowerIdempotent(s: string)
    ensures ToLower(ToLower(s)) == ToLower(s)
  {
    assert forall i :: 0 <= i < |s| ==> LowerChar(LowerChar(s[i])) == LowerChar(s[i]);
  }

  /** Lower-casing forgets whether a letter was upper-cased first. */
  lemma ToLowerOfToUpper(s: string)
    ensures ToLower(ToUpper(s)) == ToLower(s)
  {
    assert forall i :: 0 <= i < |s| ==> LowerChar(UpperChar(s[i])) == LowerChar(s[i]);
  }

  /** Lower-casing leaves a string without ASCII capitals alone; in particular "*". */
  lemma ToLowerOfStar(s: string)
    ensures ToLower(s) == "*" <==> s == "*"
  {
    if ToLower(s) == "*" {
      assert LowerChar(s[0]) == '*';
    }
  }

  // ---------------------------------------------------------------------------
  // Substrings.

  /** Does `sub` occur in `s` starting at position i? */
  predicate OccursAt(s: string, sub: string, i: nat) {
    i + |sub| <= |s| && s[i..i + |sub|] == sub
  }

  /** Java's String.contains. */
  function Contains(s: string, sub: string): (r: bool)
    ensures r <==> exists i: nat :: OccursAt(s, sub, i)
    decreases |s|
  {
    if |s| < |sub| then false
    else if s[..|sub|] == sub then (assert OccursAt(s, sub, 0); true)
    else
      var rest := Contains(s[1..], sub);
      assert forall i: nat :: OccursAt(s[1..], sub, i) <==> OccursAt(s, sub, i + 1);
      assert !OccursAt(s, sub, 0);
      assert rest ==> exists i: nat :: OccursAt(s, sub, i);
      assert (exists i: nat :: OccursAt(s, sub, i)) ==> rest by {
        if exists i: nat :: OccursAt(s, sub, i) {
          var i: nat :| OccursAt(s, sub, i);
          assert i >= 1 && OccursAt(s[1..], sub, i - 1);
        }
      }
      rest
  }

  /** A string contains every string written inside it. */
  lemma ContainsInfix(a: string, sub: string, b: string)
    ensures Contains(a + sub + b, sub)
  {
    assert (a + sub + b)[|a|..|a| + |sub|] == sub;
    assert OccursAt(a + sub + b, sub, |a|);
  }

  /** A string that lacks some character of `sub` does not contain `sub`. */
  lemma MissingCharacter(s: string, sub: string, k: nat)
    requires k < |sub| && sub[k] !in s
    ensures !Contains(s, sub)
  {
    forall i: nat | i + |sub| <= |s|
      ensures !OccursAt(s, sub, i)
    {
      assert s[i..i + |sub|][k] == s[i + k];
    }
  }

  /** A string in which two neighbouring characters of `sub` never stand side by side does not contain `sub`. */
  lemma MissingPair(s: string, sub: string, k: nat)
    requires k + 1 < |sub|
    requires forall i :: 0 <= i < |s| - 1 && s[i] == sub[k] ==> s[i + 1] != sub[k + 1]
    ensures !Contains(s, sub)
  {
    forall i: nat | i + |sub| <= |s|
      ensures !OccursAt(s, sub, i)
    {
      assert s[i..i + |sub|][k] == s[i + k];
      assert s[i..i + |sub|][k + 1] == s[i + k + 1];
    }
  }
}
