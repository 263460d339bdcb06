/** The handful of Python `str` operations the executor relies on, over `seq<char>`:
    `strip()`, `strip(chars)`, `split(sep)` on one character, `in` and `split(sep)[1]`
    on a longer separator. */
module Text {

  datatype Option<+T> = None | Some(value: T)

  /** The characters for which Python's `str.isspace()` holds: what `strip()` removes
      and what `\s` matches in a regular expression over `str`. */
  predicate IsSpace(c: char)
  {
    c == ' ' || ('\t' <= c <= '\r') || ('\U{1C}' <= c <= '\U{1F}') ||
    c == '\U{85}' || c == '\U{A0}' || c == '\U{1680}' || ('\U{2000}' <= c <= '\U{200A}') ||
    c == '\U{2028}' || c == '\U{2029}' || c == '\U{202F}' || c == '\U{205F}' || c == '\U{3000}'
  }

  /** The character classes the executor strips: whitespace for `strip()`,
      parentheses for `strip('()')`. */
  datatype CharClass = Whitespace | Parens

  predicate InClass(drop: CharClass, c: char)
  {
    match drop
    case Whitespace => IsSpace(c)
    case Parens => c == '(' || c == ')'
  }

  /** Drops the longest prefix whose characters all belong to `drop`. */
  function StripLeft(s: string, drop: CharClass): (r: string)
    ensures |r| <= |s|
    ensures r == [] || !InClass(drop, r[0])
  {
    if s != [] && InClass(drop, s[0]) then StripLeft(s[1..], drop) else s
  }

  /** Drops the longest suffix whose characters all belong to `drop`. */
  function StripRight(s: string, drop: CharClass): (r: string)
    ensures |r| <= |s|
    ensures r == [] || !InClass(drop, r[|r| - 1])
  {
    if s != [] && InClass(drop, s[|s| - 1]) then StripRight(s[..|s| - 1], drop) else s
  }

  /** `StripLeft` keeps a suffix and everything it cuts off belongs to the class;
      with the postcondition that the first kept character does not, the prefix cut
      is the longest such prefix. */
  lemma {:induction false} StripLeftCutsClass(s: string, drop: CharClass)
    ensures StripLeft(s, drop) == s[|s| - |StripLeft(s, drop)|..]
    ensures forall i :: 0 <= i < |s| - |StripLeft(s, drop)| ==> InClass(drop, s[i])
  {
    if s != [] && InClass(drop, s[0]) {
      StripLeftCutsClass(s[1..], drop);
    }
  }

  /** `StripRight` keeps a prefix and everything it cuts off belongs to the class. */
  lemma {:induction false} StripRightCutsClass(s: string, drop: CharClass)
    ensures StripRight(s, drop) == s[..|StripRight(s, drop)|]
    ensures forall i :: |StripRight(s, drop)| <= i < |s| ==> InClass(drop, s[i])
  {
    if s != [] && InClass(drop, s[|s| - 1]) {
      StripRightCutsClass(s[..|s| - 1], drop);
    }
  }

  /** Python's `s.strip()` (whitespace) or `s.strip('()')` (parentheses). */
  function Strip(s: string, drop: CharClass): string
  {
    StripRight(StripLeft(s, drop), drop)
  }

  /** Python's `s.strip()`. */
  function Trim(s: string): string
  {
    Strip(s, Whitespace)
  }

  /** `Strip` leaves alone a string whose ends are both kept characters. */
  lemma StripNoop(s: string, drop: CharClass)
    requires s == [] || (!InClass(drop, s[0]) && !InClass(drop, s[|s| - 1]))
    ensures Strip(s, drop) == s
  {
  }

  /** `Strip` ignores dropped characters put in front of its input. */
  lemma {:induction false} StripLeftPadding(w: string, s: string, drop: CharClass)
    requires forall k :: 0 <= k < |w| ==> InClass(drop, w[k])
    ensures StripLeft(w + s, drop) == StripLeft(s, drop)
  {
    if w != [] {
      assert (w + s)[0] == w[0];
      assert (w + s)[1..] == w[1..] + s;
      assert StripLeft(w + s, drop) == StripLeft(w[1..] + s, drop);
      StripLeftPadding(w[1..], s, drop);
    } else {
      assert w + s == s;
    }
  }

  /** `Strip` keeps a contiguous slice of its input: what `StripLeft` leaves starts
      after the dropped prefix, and `StripRight` then keeps a prefix of that. */
  lemma StripSlice(s: string, drop: CharClass)
    ensures var a, r := |s| - |StripLeft(s, drop)|, Strip(s, drop);
      a + |r| <= |s| && r == s[a..a + |r|]
  {
    var l := StripLeft(s, drop);
    StripLeftCutsClass(s, drop);
    StripRightCutsClass(l, drop);
  }

  /** No whitespace at either end: what `strip()` leaves. */
  predicate Stripped(s: string)
  {
    s == [] || (!IsSpace(s[0]) && !IsSpace(s[|s| - 1]))
  }

  /** `strip()` leaves a stripped string, and leaves a stripped string alone. */
  lemma TrimStripped(s: string)
    ensures Stripped(Trim(s))
    ensures Stripped(s) ==> Trim(s) == s
  {
    var l := StripLeft(s, Whitespace);
    StripRightCutsClass(l, Whitespace);
    assert Trim(s) != [] ==> Trim(s)[0] == l[0];
    if Stripped(s) {
      StripNoop(s, Whitespace);
    }
  }

  /** Stripping keeps a character out of a string that did not hold it. */
  lemma TrimKeepsOut(s: string, c: char)
    requires c !in s
    ensures c !in Trim(s) && Stripped(Trim(s))
  {
    StripSlice(s, Whitespace);
    TrimStripped(s);
  }

  /** `strip()` is idempotent. */
  lemma TrimIdempotent(s: string)
    ensures Trim(Trim(s)) == Trim(s)
  {
    TrimStripped(s);
    TrimStripped(Trim(s));
  }

  /** Concatenation is associative. */
  lemma Associative<T>(a: seq<T>, b: seq<T>, c: seq<T>)
    ensures (a + b) + c == a + (b + c)
  {
  }

  /** Number of occurrences of `c` in `s`. */
  function Count(s: string, c: char): nat
  {
    if s == [] then 0 else (if s[0] == c then 1 else 0) + Count(s[1..], c)
  }

  /** Python's `s.split(c)` for a one-character separator: the pieces between
      separators, always at least one, none containing the separator. */
  function Split(s: string, c: char): (parts: seq<string>)
    ensures |parts| == Count(s, c) + 1
    ensures forall k :: 0 <= k < |parts| ==> c !in parts[k]
  {
    if s == [] then [[]]
    else
      var rest := Split(s[1..], c);
      if s[0] == c then [[]] + rest else [[s[0]] + rest[0]] + rest[1..]
  }

  /** Python's `c.join(parts)`. */
  function Join(parts: seq<string>, c: char): string
    requires |parts| >= 1
  {
    if |parts| == 1 then parts[0] else parts[0] + [c] + Join(parts[1..], c)
  }

  /** Joining the pieces of a split gives the string back. */
  lemma {:induction false} JoinSplit(s: string, c: char)
    ensures Join(Split(s, c), c) == s
  {
    if s != [] {
      JoinSplit(s[1..], c);
      var rest := Split(s[1..], c);
      if s[0] != c {
        if |rest| == 1 {
          assert Split(s, c) == [[s[0]] + rest[0]];
        } else {
          var parts := Split(s, c);
          assert parts[1..] == rest[1..];
          assert Join(rest, c) == rest[0] + [c] + Join(rest[1..], c);
        }
      }
    }
  }

  /** Splitting at a separator placed between two strings splits each side apart. */
  lemma {:induction false} SplitConcat(a: string, c: char, b: string)
    ensures Split(a + [c] + b, c) == Split(a, c) + Split(b, c)
  {
    if a == [] {
      assert a + [c] + b == [c] + b;
      assert ([c] + b)[1..] == b;
    } else {
      assert (a + [c] + b)[1..] == a[1..] + [c] + b;
      SplitConcat(a[1..], c, b);
    }
  }

  /** A string without the separator is one piece. */
  lemma {:induction false} SplitNoSeparator(s: string, c: char)
    requires c !in s
    ensures Split(s, c) == [s]
  {
    if s != [] {
      assert s[0] != c && c !in s[1..];
      SplitNoSeparator(s[1..], c);
      assert [s[0]] + s[1..] == s;
    }
  }

  /** Splitting pieces joined by the separator gives back the pieces. */
  lemma {:induction false} SplitJoin(parts: seq<string>, c: char)
    requires |parts| >= 1
    requires forall k :: 0 <= k < |parts| ==> c !in parts[k]
    ensures Split(Join(parts, c), c) == parts
  {
    if |parts| == 1 {
      SplitNoSeparator(parts[0], c);
    } else {
      SplitJoin(parts[1..], c);
      SplitConcat(parts[0], c, Join(parts[1..], c));
      SplitNoSeparator(parts[0], c);
      assert [parts[0]] + parts[1..] == parts;
    }
  }

  /** Index of the first `c` in `s`, as `s.find(c)` when it is not -1. */
  function IndexOf(s: string, c: char): (r: Option<nat>)
    ensures r.Some? ==> r.value < |s| && s[r.value] == c && c !in s[..r.value]
    ensures r.None? ==> c !in s
  {
    if s == [] then None
    else if s[0] == c then Some(0)
    else match IndexOf(s[1..], c)
      case None => None
      case Some(i) => Some(i + 1)
  }

  /** `pat` occurs in `s` at index `j`. */
  predicate OccursAt(s: string, pat: string, j: nat)
  {
    j + |pat| <= |s| && s[j..j + |pat|] == pat
  }

  /** Dropping the first character shifts every occurrence one place left. */
  lemma OccursShift(s: string, pat: string, j: nat)
    requires s != []
    ensures OccursAt(s, pat, j + 1) <==> OccursAt(s[1..], pat, j)
  {
    if j + 1 + |pat| <= |s| {
      assert s[j + 1..j + 1 + |pat|] == s[1..][j..j + |pat|];
    }
  }

  /** Index of the leftmost occurrence of `pat` in `s`: Python's `s.find(pat)`
      when it is not -1. */
  function FindSub(s: string, pat: string): (r: Option<nat>)
    requires pat != []
    ensures r.Some? ==> OccursAt(s, pat, r.value)
    ensures r.Some? ==> forall j: nat :: j < r.value ==> !OccursAt(s, pat, j)
    ensures r.None? ==> forall j: nat :: !OccursAt(s, pat, j)
    decreases |s|
  {
    if |s| < |pat| then None
    else if s[..|pat|] == pat then Some(0)
    else
      var r := FindSub(s[1..], pat);
      assert forall j: nat :: j >= 1 ==> (OccursAt(s, pat, j) <==> OccursAt(s[1..], pat, j - 1)) by {
        forall j: nat | j >= 1 ensures OccursAt(s, pat, j) <==> OccursAt(s[1..], pat, j - 1) {
          OccursShift(s, pat, j - 1);
        }
      }
      assert !OccursAt(s, pat, 0);
      match r
      case None => None
      case Some(i) => Some(i + 1)
  }

  /** Python's `pat in s`. */
  predicate Contains(s: string, pat: string)
    requires pat != []
  {
    FindSub(s, pat).Some?
  }

  /** A pattern found in a slice is found in the whole string. */
  lemma ContainsSlice(s: string, pat: string, a: nat, b: nat)
    requires pat != [] && a <= b <= |s| && Contains(s[a..b], pat)
    ensures Contains(s, pat)
  {
    var t, k := s[a..b], FindSub(s[a..b], pat).value;
    assert OccursAt(t, pat, k);
    assert k + |pat| <= |t| && t[k..k + |pat|] == pat;
    forall i | 0 <= i < |pat|
      ensures s[a + k + i] == pat[i]
    {
      assert t[k..k + |pat|][i] == t[k + i] == s[a + k + i];
    }
    assert s[a + k..a + k + |pat|] == pat;
    assert OccursAt(s, pat, a + k);
  }

  /** Stripping a string that does not contain a pattern gives one that does not
      either. */
  lemma TrimKeepsPatternOut(s: string, pat: string)
    requires pat != [] && !Contains(s, pat)
    ensures !Contains(Trim(s), pat)
  {
    StripSlice(s, Whitespace);
    var a := |s| - |StripLeft(s, Whitespace)|;
    if Contains(Trim(s), pat) {
      ContainsSlice(s, pat, a, a + |Trim(s)|);
    }
  }

  /** Python's `s.split(pat)[1]` when `pat in s`: the text after the first occurrence
      of `pat`, up to the next occurrence found after it (or to the end). */
  function SecondPiece(s: string, pat: string): (r: string)
    requires pat != [] && Contains(s, pat)
    ensures !Contains(r, pat)
    ensures var i := FindSub(s, pat).value; i + |pat| + |r| <= |s| && r == s[i + |pat|..i + |pat| + |r|]
  {
    var rest := s[FindSub(s, pat).value + |pat|..];
    match FindSub(rest, pat)
    case None => rest
    case Some(j) =>
      assert forall k: nat :: OccursAt(rest[..j], pat, k) ==> OccursAt(rest, pat, k) by {
        forall k: nat | OccursAt(rest[..j], pat, k) ensures OccursAt(rest, pat, k) {
          assert rest[..j][k..k + |pat|] == rest[k..k + |pat|];
        }
      }
      rest[..j]
  }
}
