/**
 * The few functions of Go's `strings` package that the core relies on,
 * on strings seen as sequences of characters: `Split` with a one-character
 * separator, `TrimRight` with a one-character cut set, `HasPrefix` and
 * `TrimPrefix`, plus the byte-wise order that `sort.Strings` and `<` use.
 */
module GoStrings {

  /** Index of the first occurrence of `c` in `s`. */
  function IndexOf(s: string, c: char): (i: nat)
    requires c in s
    ensures i < |s| && s[i] == c && c !in s[..i]
  {
    if s[0] == c then 0 else 1 + IndexOf(s[1..], c)
  }

  /** The first occurrence is the only position with `c` and none before it. */
  lemma IndexOfUnique(s: string, c: char, i: nat)
    requires i < |s| && s[i] == c && c !in s[..i]
    ensures IndexOf(s, c) == i
  {
  }

  /** Number of occurrences of `c` in `s`. */
  function Count(s: string, c: char): nat
  {
    if s == [] then 0 else (if s[0] == c then 1 else 0) + Count(s[1..], c)
  }

  /**
   * `strings.Split(s, string(sep))`: the pieces of `s` around every
   * occurrence of `sep`, empty pieces included; a string without `sep`,
   * the empty string among them, is a single piece.
   */
  function Split(s: string, sep: char): (r: seq<string>)
    ensures |r| >= 1
    decreases |s|
  {
    if sep !in s then [s]
    else
      var i := IndexOf(s, sep);
      [s[..i]] + Split(s[i + 1..], sep)
  }

  /** No piece of `Split` holds the separator. */
  lemma {:induction false} SplitPieces(s: string, sep: char)
    ensures forall i :: 0 <= i < |Split(s, sep)| ==> sep !in Split(s, sep)[i]
    decreases |s|
  {
    if sep in s {
      var i := IndexOf(s, sep);
      SplitPieces(s[i + 1..], sep);
      assert forall k :: 1 <= k < |Split(s, sep)| ==> Split(s, sep)[k] == Split(s[i + 1..], sep)[k - 1];
    }
  }

  /** `strings.Join(parts, string(sep))`, the inverse of `Split`. */
  function Join(parts: seq<string>, sep: char): string
    requires |parts| >= 1
  {
    if |parts| == 1 then parts[0] else parts[0] + [sep] + Join(parts[1..], sep)
  }

  /** Splitting and joining again gives back the string. */
  lemma {:induction false} JoinSplit(s: string, sep: char)
    ensures Join(Split(s, sep), sep) == s
    decreases |s|
  {
    if sep in s {
      var i := IndexOf(s, sep);
      JoinSplit(s[i + 1..], sep);
      assert s == s[..i] + [sep] + s[i + 1..];
    }
  }

  /** Joining pieces without the separator and splitting again gives back the pieces. */
  lemma {:induction false} SplitJoin(parts: seq<string>, sep: char)
    requires |parts| >= 1
    requires forall i :: 0 <= i < |parts| ==> sep !in parts[i]
    ensures Split(Join(parts, sep), sep) == parts
  {
    if |parts| > 1 {
      var s := Join(parts, sep);
      var rest := Join(parts[1..], sep);
      assert s == parts[0] + [sep] + rest;
      assert s[|parts[0]|] == sep;
      assert s[..|parts[0]|] == parts[0];
      assert IndexOf(s, sep) == |parts[0]|;
      assert s[|parts[0]| + 1..] == rest;
      SplitJoin(parts[1..], sep);
    }
  }

  /** `Split` gives one piece more than there are separators. */
  lemma {:induction false} SplitCount(s: string, sep: char)
    ensures |Split(s, sep)| == Count(s, sep) + 1
    decreases |s|
  {
    if sep in s {
      var i := IndexOf(s, sep);
      SplitCount(s[i + 1..], sep);
      CountAppend(s[..i], s[i..], sep);
      CountAppend([s[i]], s[i + 1..], sep);
      assert s[..i] + s[i..] == s;
      assert [s[i]] + s[i + 1..] == s[i..];
      CountAbsent(s[..i], sep);
    } else {
      CountAbsent(s, sep);
    }
  }

  lemma {:induction false} CountAppend(a: string, b: string, c: char)
    ensures Count(a + b, c) == Count(a, c) + Count(b, c)
  {
    if a == [] {
      assert a + b == b;
    } else {
      assert (a + b)[1..] == a[1..] + b;
      CountAppend(a[1..], b, c);
    }
  }

  lemma {:induction false} CountAbsent(s: string, c: char)
    requires c !in s
    ensures Count(s, c) == 0
  {
    if s != [] {
      CountAbsent(s[1..], c);
    }
  }

  /**
   * `strings.TrimRight(s, string(c))`: `s` without the run of `c`
   * characters at its end.
   */
  function TrimRight(s: string, c: char): (r: string)
    ensures |r| <= |s| && r == s[..|r|]
    ensures r == [] || r[|r| - 1] != c
    ensures forall k :: |r| <= k < |s| ==> s[k] == c
  {
    if s != [] && s[|s| - 1] == c then TrimRight(s[..|s| - 1], c) else s
  }

  /** Only the trailing run of `c` goes: a single `c` after a `c`-free string. */
  lemma TrimRightOne(s: string, c: char)
    requires c !in s
    ensures TrimRight(s + [c], c) == s
  {
    assert (s + [c])[..|s|] == s;
  }

  /** `strings.HasPrefix(s, prefix)`. */
  predicate HasPrefix(s: string, prefix: string)
  {
    |prefix| <= |s| && s[..|prefix|] == prefix
  }

  /**
   * `strings.TrimPrefix(s, prefix)`: `s` without a leading `prefix`,
   * or `s` itself when it does not start with `prefix`.
   */
  function TrimPrefix(s: string, prefix: string): (r: string)
    ensures HasPrefix(s, prefix) ==> prefix + r == s
    ensures !HasPrefix(s, prefix) ==> r == s
  {
    if HasPrefix(s, prefix) then s[|prefix|..] else s
  }

  /**
   * Go's `a < b` on strings: byte-wise lexicographic order of the UTF-8
   * encodings, which is the lexicographic order of the code points.
   */
  predicate Less(a: string, b: string)
    decreases |a|
  {
    if a == [] then b != []
    else if b == [] then false
    else a[0] < b[0] || (a[0] == b[0] && Less(a[1..], b[1..]))
  }

  /** No string is below itself. */
  lemma {:induction false} LessIrreflexive(a: string)
    ensures !Less(a, a)
    decreases |a|
  {
    if a != [] {
      LessIrreflexive(a[1..]);
    }
  }
}
