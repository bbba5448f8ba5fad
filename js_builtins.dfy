/**
  The ECMAScript string and array built-ins that the list distribution
  component relies on, restricted to the way it calls them: `split` with a
  one-character separator, `trim`, `toLowerCase`, `includes`, `lastIndexOf`,
  `slice` and a global `replace` of one character by nothing.
  Whitespace and letter case are the ASCII approximations of the Unicode rules.
*/
module JsBuiltins {

  // ---------------------------------------------------------------------------
  // Whitespace and `trim`
  // ---------------------------------------------------------------------------

  /** The characters that `trim` removes (ASCII subset). */
  predicate IsWhitespace(c: char) {
    c == ' ' || c == '\t' || c == '\n' || c == '\r' || c == '\U{000B}' || c == '\U{000C}'
  }

  predicate AllWhitespace(s: string) {
    forall i :: 0 <= i < |s| ==> IsWhitespace(s[i])
  }

  /** Drops leading whitespace: the result is the longest suffix that does not start with whitespace. */
  function TrimStart(s: string): (r: string)
    ensures |r| <= |s| && r == s[|s| - |r|..]
    ensures AllWhitespace(s[..|s| - |r|])
    ensures r == [] || !IsWhitespace(r[0])
  {
    if |s| > 0 && IsWhitespace(s[0]) then
      var r := TrimStart(s[1..]);
      assert s[..|s| - |r|] == [s[0]] + s[1..][..|s[1..]| - |r|];
      r
    else
      s
  }

  /** Drops trailing whitespace: the result is the longest prefix that does not end with whitespace. */
  function TrimEnd(s: string): (r: string)
    ensures |r| <= |s| && r == s[..|r|]
    ensures AllWhitespace(s[|r|..])
    ensures r == [] || !IsWhitespace(r[|r| - 1])
  {
    if |s| > 0 && IsWhitespace(s[|s| - 1]) then
      var r := TrimEnd(s[..|s| - 1]);
      assert s[|r|..] == s[..|s| - 1][|r|..] + [s[|s| - 1]];
      r
    else
      s
  }

  /** `String.prototype.trim`: empty exactly for all-whitespace input, otherwise bounded by non-whitespace. */
  function Trim(s: string): (r: string)
    ensures |r| <= |s|
    ensures r == [] <==> AllWhitespace(s)
    ensures r != [] ==> !IsWhitespace(r[0]) && !IsWhitespace(r[|r| - 1])
  {
    var t := TrimStart(s);
    var r := TrimEnd(t);
    assert r != [] ==> r[0] == t[0];
    assert AllWhitespace(s) ==> t == [];
    assert r == [] ==> AllWhitespace(s) by {
      if r == [] {
        assert t[|r|..] == t;
        assert t == [];
        assert s[..|s|] == s;
      }
    }
    r
  }

  /** `trim` cuts whitespace from the two ends and keeps the middle of the string as it is. */
  lemma TrimCutsEnds(s: string)
    ensures exists a :: (0 <= a && a + |Trim(s)| <= |s| && Trim(s) == s[a..a + |Trim(s)|] &&
      AllWhitespace(s[..a]) && AllWhitespace(s[a + |Trim(s)|..]))
  {
    var t := TrimStart(s);
    var r := TrimEnd(t);
    var a := |s| - |t|;
    assert t == s[a..];
    assert r == s[a..a + |r|] && s[a + |r|..] == t[|r|..];
    assert Trim(s) == r;
  }

  // ---------------------------------------------------------------------------
  // Letter case
  // ---------------------------------------------------------------------------

  predicate IsUpper(c: char) {
    'A' <= c <= 'Z'
  }

  function LowerChar(c: char): char {
    if IsUpper(c) then (c as int + 32) as char else c
  }

  /** `String.prototype.toLowerCase` (ASCII letters only). */
  function ToLower(s: string): string {
    seq(|s|, i requires 0 <= i < |s| => LowerChar(s[i]))
  }

  /** Lowering is decided character by character. */
  lemma LowerWord(s: string, t: string)
    requires |s| == |t|
    requires forall i :: 0 <= i < |s| ==> LowerChar(s[i]) == t[i]
    ensures ToLower(s) == t
  {
  }

  lemma ToLowerHasNoUpper(s: string)
    ensures forall i :: 0 <= i < |s| ==> !IsUpper(ToLower(s)[i])
  {
  }

  /** Lowering twice is lowering once. */
  lemma ToLowerIdempotent(s: string)
    ensures ToLower(ToLower(s)) == ToLower(s)
  {
    assert forall i :: 0 <= i < |s| ==> ToLower(ToLower(s))[i] == ToLower(s)[i];
  }

  lemma ToLowerConcat(a: string, b: string)
    ensures ToLower(a + b) == ToLower(a) + ToLower(b)
  {
    assert ToLower(a + b) == ToLower(a) + ToLower(b);
  }

  lemma ToLowerSuffix(s: string, k: nat)
    requires k <= |s|
    ensures ToLower(s)[k..] == ToLower(s[k..])
  {
  }

  /** Lowering does not turn a non-whitespace character into whitespace or back. */
  lemma LowerCharWhitespace(c: char)
    ensures IsWhitespace(LowerChar(c)) == IsWhitespace(c)
  {
  }

  lemma {:induction false} TrimStartToLower(s: string)
    ensures TrimStart(ToLower(s)) == ToLower(TrimStart(s))
    decreases |s|
  {
    if |s| > 0 {
      var l := ToLower(s);
      LowerCharWhitespace(s[0]);
      assert IsWhitespace(l[0]) == IsWhitespace(s[0]);
      if IsWhitespace(s[0]) {
        assert l[1..] == ToLower(s[1..]);
        TrimStartToLower(s[1..]);
        calc {
          TrimStart(l);
          TrimStart(l[1..]);
          ToLower(TrimStart(s[1..]));
          ToLower(TrimStart(s));
        }
      } else {
        assert TrimStart(l) == l;
        assert TrimStart(s) == s;
      }
    }
  }

  lemma {:induction false} TrimEndToLower(s: string)
    ensures TrimEnd(ToLower(s)) == ToLower(TrimEnd(s))
    decreases |s|
  {
    if |s| > 0 {
      var l := ToLower(s);
      LowerCharWhitespace(s[|s| - 1]);
      assert IsWhitespace(l[|l| - 1]) == IsWhitespace(s[|s| - 1]);
      if IsWhitespace(s[|s| - 1]) {
        assert l[..|l| - 1] == ToLower(s[..|s| - 1]);
        TrimEndToLower(s[..|s| - 1]);
        calc {
          TrimEnd(l);
          TrimEnd(l[..|l| - 1]);
          ToLower(TrimEnd(s[..|s| - 1]));
          ToLower(TrimEnd(s));
        }
      } else {
        assert TrimEnd(l) == l;
        assert TrimEnd(s) == s;
      }
    }
  }

  /** Trimming and lowering commute, so `h.trim().toLowerCase()` ignores the case of its input. */
  lemma TrimToLower(s: string)
    ensures Trim(ToLower(s)) == ToLower(Trim(s))
  {
    TrimStartToLower(s);
    TrimEndToLower(TrimStart(s));
  }

  // ---------------------------------------------------------------------------
  // `split` and its inverse
  // ---------------------------------------------------------------------------

  /** Occurrences of c in s. */
  function Count(s: string, c: char): nat {
    if s == [] then 0 else (if s[0] == c then 1 else 0) + Count(s[1..], c)
  }

  /**
    `String.prototype.split(sep)` for a one-character separator: the pieces
    between separators, always at least one (the empty string splits into [""]).
  */
  function Split(s: string, sep: char): (r: seq<string>)
    ensures |r| >= 1
  {
    if s == [] then [[]]
    else
      var rest := Split(s[1..], sep);
      if s[0] == sep then [[]] + rest else [[s[0]] + rest[0]] + rest[1..]
  }

  /** `Array.prototype.join(sep)`: the pieces with one separator between neighbours. */
  function Join(parts: seq<string>, sep: char): string
    requires |parts| >= 1
  {
    if |parts| == 1 then parts[0] else parts[0] + [sep] + Join(parts[1..], sep)
  }

  /** There is one more piece than there are separators. */
  lemma {:induction false} SplitLength(s: string, sep: char)
    ensures |Split(s, sep)| == Count(s, sep) + 1
  {
    if s != [] {
      SplitLength(s[1..], sep);
    }
  }

  /** No piece contains the separator. */
  lemma {:induction false} SplitPiecesFree(s: string, sep: char)
    ensures forall k :: 0 <= k < |Split(s, sep)| ==> sep !in Split(s, sep)[k]
  {
    if s != [] {
      SplitPiecesFree(s[1..], sep);
    }
  }

  lemma JoinCons(p: string, ps: seq<string>, sep: char)
    requires |ps| >= 1
    ensures Join([p] + ps, sep) == p + [sep] + Join(ps, sep)
  {
    assert ([p] + ps)[1..] == ps;
  }

  /** Prepending a character to the first piece prepends it to the joined string. */
  lemma JoinExtendFirst(c: char, parts: seq<string>, sep: char)
    requires |parts| >= 1
    ensures Join([[c] + parts[0]] + parts[1..], sep) == [c] + Join(parts, sep)
  {
    if |parts| > 1 {
      var tail := Join(parts[1..], sep);
      JoinCons([c] + parts[0], parts[1..], sep);
      assert parts == [parts[0]] + parts[1..];
      JoinCons(parts[0], parts[1..], sep);
      assert ([c] + parts[0]) + [sep] + tail == [c] + (parts[0] + [sep] + tail);
    }
  }

  /** Joining the pieces with the separator gives back the split string. */
  lemma {:induction false} JoinSplit(s: string, sep: char)
    ensures Join(Split(s, sep), sep) == s
  {
    if s != [] {
      var rest := Split(s[1..], sep);
      JoinSplit(s[1..], sep);
      if s[0] == sep {
        assert Split(s, sep) == [[]] + rest;
        JoinCons([], rest, sep);
      } else {
        assert Split(s, sep) == [[s[0]] + rest[0]] + rest[1..];
        JoinExtendFirst(s[0], rest, sep);
      }
      assert s == [s[0]] + s[1..];
    }
  }

  /** A string without the separator is a single piece. */
  lemma {:induction false} SplitWithoutSeparator(s: string, sep: char)
    requires sep !in s
    ensures Split(s, sep) == [s]
  {
    if s != [] {
      assert s == [s[0]] + s[1..];
      SplitWithoutSeparator(s[1..], sep);
    }
  }

  /** Splitting at a separator splits each side independently. */
  lemma {:induction false} SplitConcat(a: string, b: string, sep: char)
    ensures Split(a + [sep] + b, sep) == Split(a, sep) + Split(b, sep)
    decreases |a|
  {
    var s := a + [sep] + b;
    if a == [] {
      assert s[1..] == b;
    } else {
      assert s[0] == a[0];
      assert s[1..] == a[1..] + [sep] + b;
      SplitConcat(a[1..], b, sep);
    }
  }

  /** Two separator-free pieces joined by the separator split back into those two. */
  lemma SplitTwo(a: string, b: string, sep: char)
    requires sep !in a && sep !in b
    ensures var parts := Split(a + [sep] + b, sep);
      |parts| == 2 && parts[0] == a && parts[1] == b
  {
    SplitConcat(a, b, sep);
    SplitWithoutSeparator(a, sep);
    SplitWithoutSeparator(b, sep);
  }

  /** A needle with a character the string lacks does not occur in it. */
  lemma MissingCharNotIncluded(s: string, needle: string, c: char)
    requires c in needle && c !in s
    ensures !Includes(s, needle)
  {
  }

  /** Three separator-free pieces joined by the separator split back into those three. */
  lemma SplitThree(a: string, b: string, c: string, sep: char)
    requires sep !in a && sep !in b && sep !in c
    ensures var parts := Split(a + [sep] + (b + [sep] + c), sep);
      |parts| == 3 && parts[0] == a && parts[1] == b && parts[2] == c
  {
    SplitConcat(a, b + [sep] + c, sep);
    SplitConcat(b, c, sep);
    SplitWithoutSeparator(a, sep);
    SplitWithoutSeparator(b, sep);
    SplitWithoutSeparator(c, sep);
  }

  /** Splitting the join of separator-free pieces gives back the pieces. */
  lemma {:induction false} SplitJoin(parts: seq<string>, sep: char)
    requires |parts| >= 1
    requires forall k :: 0 <= k < |parts| ==> sep !in parts[k]
    ensures Split(Join(parts, sep), sep) == parts
  {
    SplitWithoutSeparator(parts[0], sep);
    if |parts| > 1 {
      SplitJoin(parts[1..], sep);
      SplitConcat(parts[0], Join(parts[1..], sep), sep);
    }
  }

  lemma AllWhitespaceCons(c: char, t: string)
    ensures AllWhitespace([c] + t) <==> IsWhitespace(c) && AllWhitespace(t)
  {
    var s := [c] + t;
    if IsWhitespace(c) && AllWhitespace(t) {
      forall i | 0 <= i < |s| ensures IsWhitespace(s[i]) {
        if i > 0 { assert s[i] == t[i - 1]; }
      }
    }
    if AllWhitespace(s) {
      assert IsWhitespace(s[0]);
      forall i | 0 <= i < |t| ensures IsWhitespace(t[i]) {
        assert t[i] == s[i + 1];
      }
    }
  }

  predicate AllPiecesWhitespace(parts: seq<string>) {
    forall k :: 0 <= k < |parts| ==> AllWhitespace(parts[k])
  }

  lemma AllPiecesWhitespaceCons(p: string, ps: seq<string>)
    ensures AllPiecesWhitespace([p] + ps) <==> AllWhitespace(p) && AllPiecesWhitespace(ps)
  {
    var parts := [p] + ps;
    assert parts[0] == p;
    assert forall k :: 0 <= k < |ps| ==> ps[k] == parts[k + 1];
  }

  /** A string is all whitespace exactly when every piece of it is, for a whitespace separator. */
  lemma {:induction false} SplitAllWhitespace(s: string, sep: char)
    requires IsWhitespace(sep)
    ensures AllWhitespace(s) <==> AllPiecesWhitespace(Split(s, sep))
  {
    if s != [] {
      SplitAllWhitespace(s[1..], sep);
      var rest := Split(s[1..], sep);
      assert s == [s[0]] + s[1..];
      AllWhitespaceCons(s[0], s[1..]);
      if s[0] == sep {
        assert Split(s, sep) == [[]] + rest;
        AllPiecesWhitespaceCons([], rest);
      } else {
        assert Split(s, sep) == [[s[0]] + rest[0]] + rest[1..];
        assert rest == [rest[0]] + rest[1..];
        AllPiecesWhitespaceCons([s[0]] + rest[0], rest[1..]);
        AllPiecesWhitespaceCons(rest[0], rest[1..]);
        AllWhitespaceCons(s[0], rest[0]);
      }
    }
  }

  /** Lowering letters does not move a separator that is neither upper nor lower case. */
  lemma {:induction false} SplitToLower(s: string, sep: char)
    requires !IsUpper(sep) && !('a' <= sep <= 'z')
    ensures |Split(ToLower(s), sep)| == |Split(s, sep)|
    ensures forall k :: 0 <= k < |Split(s, sep)| ==> Split(ToLower(s), sep)[k] == ToLower(Split(s, sep)[k])
  {
    if s != [] {
      assert ToLower(s)[1..] == ToLower(s[1..]);
      SplitToLower(s[1..], sep);
      var rest, lrest := Split(s[1..], sep), Split(ToLower(s[1..]), sep);
      assert (ToLower(s)[0] == sep) == (s[0] == sep);
      if s[0] != sep {
        assert ToLower([s[0]] + rest[0]) == [LowerChar(s[0])] + lrest[0];
      }
    }
  }

  // ---------------------------------------------------------------------------
  // `map`
  // ---------------------------------------------------------------------------

  /** `Array.prototype.map` with a callback that ignores the index. */
  function Map<A, B>(f: A -> B, s: seq<A>): (r: seq<B>)
    ensures |r| == |s|
    ensures forall i :: 0 <= i < |s| ==> r[i] == f(s[i])
  {
    seq(|s|, i requires 0 <= i < |s| => f(s[i]))
  }

  lemma MapConcat<A, B>(f: A -> B, a: seq<A>, b: seq<A>)
    ensures Map(f, a + b) == Map(f, a) + Map(f, b)
  {
    assert forall i :: 0 <= i < |a| ==> (a + b)[i] == a[i];
    assert forall i :: |a| <= i < |a| + |b| ==> (a + b)[i] == b[i - |a|];
  }

  // ---------------------------------------------------------------------------
  // `includes`, `lastIndexOf`, `slice`, `replace`
  // ---------------------------------------------------------------------------

  /** `String.prototype.includes`: needle occurs somewhere in s. */
  predicate Includes(s: string, needle: string) {
    exists i :: 0 <= i <= |s| && needle <= s[i..]
  }

  /** Every string contains itself. */
  lemma IncludesSelf(s: string)
    ensures Includes(s, s)
  {
    assert s[0..] == s;
  }

  /** `String.prototype.lastIndexOf` for one character: the last position of c, or -1. */
  function LastIndexOf(s: string, c: char): (r: int)
    ensures -1 <= r < |s|
    ensures r == -1 <==> c !in s
    ensures r >= 0 ==> s[r] == c
    ensures forall j :: r < j < |s| ==> s[j] != c
  {
    if s == [] then -1
    else if s[|s| - 1] == c then |s| - 1
    else
      var r := LastIndexOf(s[..|s| - 1], c);
      assert forall j :: 0 <= j < |s| - 1 ==> s[j] == s[..|s| - 1][j];
      r
  }

  /** How `slice` turns a possibly negative relative index into a position. */
  function RelativeIndex(rel: int, len: nat): (k: nat)
    ensures k <= len
    ensures 0 <= rel <= len ==> k == rel
    ensures rel < 0 && 0 <= len + rel ==> k == len + rel
    ensures len + rel < 0 ==> k == 0
    ensures rel > len ==> k == len
  {
    if rel < 0 then (if len + rel < 0 then 0 else len + rel)
    else if rel > len then len
    else rel
  }

  /** `slice(start)` on a string. */
  function SliceFrom(s: string, start: int): string {
    s[RelativeIndex(start, |s|)..]
  }

  /** `Array.prototype.slice(start, end)`: clamped bounds, empty when end is not after start. */
  function Slice<T>(s: seq<T>, start: int, end: int): (r: seq<T>)
    ensures 0 <= start <= end <= |s| ==> r == s[start..end]
  {
    var from, to := RelativeIndex(start, |s|), RelativeIndex(end, |s|);
    if from < to then s[from..to] else []
  }

  /**
    `replace(/c/g, '')`: s with every occurrence of c removed and every other
    character kept, in order.
  */
  function RemoveAll(s: string, c: char): (r: string)
    ensures c !in r
    ensures |r| == |s| - Count(s, c)
    ensures c !in s ==> r == s
  {
    if s == [] then []
    else
      var rest := RemoveAll(s[1..], c);
      assert s == [s[0]] + s[1..];
      if s[0] == c then rest else [s[0]] + rest
  }

  /** Removing from one character: gone when it is c, kept otherwise. */
  lemma RemoveAllChar(x: char, c: char)
    ensures RemoveAll([x], c) == if x == c then [] else [x]
  {
    assert [x][1..] == [];
  }

  /** Removal works piece by piece, so every other character survives, in order. */
  lemma {:induction false} RemoveAllConcat(a: string, b: string, c: char)
    ensures RemoveAll(a + b, c) == RemoveAll(a, c) + RemoveAll(b, c)
    decreases |a|
  {
    if a != [] {
      assert (a + b)[0] == a[0] && (a + b)[1..] == a[1..] + b;
      RemoveAllConcat(a[1..], b, c);
      var head := if a[0] == c then [] else [a[0]];
      assert RemoveAll(a, c) == head + RemoveAll(a[1..], c);
      assert RemoveAll(a + b, c) == head + RemoveAll(a[1..] + b, c);
    } else {
      assert a + b == b;
    }
  }
}
