/**
 Character classes and string helpers with Python's meaning, restricted to
 ASCII: the `\w` and `\s` regex classes, `str.lower`, `str.strip` and
 `str.split` on a single separator character.
 */
module Text {

  /** Python's `\w` on ASCII: letters, digits and the underscore. */
  predicate IsWordChar(c: char) {
    ('a' <= c <= 'z') || ('A' <= c <= 'Z') || ('0' <= c <= '9') || c == '_'
  }

  /** Python's `\s` and `str.isspace` on ASCII: the space, tab, line feed,
      vertical tab, form feed, carriage return and the separators 0x1C-0x1F. */
  predicate IsSpace(c: char) {
    c == ' ' || (9 <= c as int <= 13) || (28 <= c as int <= 31)
  }

  predicate IsUpper(c: char) {
    'A' <= c <= 'Z'
  }

  predicate NotNewline(c: char) {
    c != '\n'
  }

  predicate AllWord(s: string) {
    forall k :: 0 <= k < |s| ==> IsWordChar(s[k])
  }

  predicate AllSpace(s: string) {
    forall k :: 0 <= k < |s| ==> IsSpace(s[k])
  }

  predicate HasUpper(s: string) {
    exists k :: 0 <= k < |s| && IsUpper(s[k])
  }

  /** No leading and no trailing whitespace. */
  predicate IsStripped(s: string) {
    s == [] || (!IsSpace(s[0]) && !IsSpace(s[|s| - 1]))
  }

  function LowerChar(c: char): char {
    if IsUpper(c) then (c as int + 32) as char else c
  }

  /** `str.lower` on ASCII. */
  function Lower(s: string): (r: string)
    ensures |r| == |s|
    ensures !HasUpper(r)
    ensures forall k :: 0 <= k < |s| && !IsUpper(s[k]) ==> r[k] == s[k]
    ensures forall k :: 0 <= k < |s| && IsUpper(s[k]) ==> r[k] as int == s[k] as int + 32
    ensures AllWord(s) ==> AllWord(r)
    ensures !HasUpper(s) ==> r == s
  {
    seq(|s|, k requires 0 <= k < |s| => LowerChar(s[k]))
  }

  /** `a` and `b` spell the same word up to the case of ASCII letters. */
  predicate SameIgnoringCase(a: string, b: string) {
    && |a| == |b|
    && forall k :: 0 <= k < |a| ==>
      || a[k] == b[k]
      || (IsUpper(a[k]) && b[k] as int == a[k] as int + 32)
      || (IsUpper(b[k]) && a[k] as int == b[k] as int + 32)
  }

  /** Two strings are lower-cased to the same string exactly when they differ
      only in the case of letters: `GST`, `Gst` and `gst` become one key. */
  lemma LowerSameIgnoringCase(a: string, b: string)
    ensures Lower(a) == Lower(b) <==> SameIgnoringCase(a, b)
  {
    if Lower(a) == Lower(b) {
      forall k | 0 <= k < |a|
        ensures || a[k] == b[k]
                || (IsUpper(a[k]) && b[k] as int == a[k] as int + 32)
                || (IsUpper(b[k]) && a[k] as int == b[k] as int + 32)
      {
        assert Lower(a)[k] == Lower(b)[k];
      }
    }
    if SameIgnoringCase(a, b) {
      forall k | 0 <= k < |a|
        ensures Lower(a)[k] == Lower(b)[k]
      {
      }
    }
  }

  /** Number of whitespace characters at the front of `s`. */
  function LeadingSpace(s: string): (i: nat)
    ensures i <= |s|
    ensures AllSpace(s[..i])
    ensures i == |s| || !IsSpace(s[i])
  {
    if s == [] || !IsSpace(s[0]) then 0
    else
      var i := 1 + LeadingSpace(s[1..]);
      assert forall k :: 1 <= k < i ==> s[k] == s[1..][k - 1];
      i
  }

  /** Length of `s` once its trailing whitespace is removed. */
  function TrailingCut(s: string): (j: nat)
    ensures j <= |s|
    ensures AllSpace(s[j..])
    ensures j == 0 || !IsSpace(s[j - 1])
  {
    if s == [] || !IsSpace(s[|s| - 1]) then |s|
    else
      var j := TrailingCut(s[..|s| - 1]);
      assert forall k :: j <= k < |s| - 1 ==> s[k] == s[..|s| - 1][k];
      j
  }

  /** `str.strip()`: `s` without its leading and trailing whitespace. */
  function Strip(s: string): (r: string)
    ensures IsStripped(r)
    ensures |r| <= |s|
    ensures exists i, j :: 0 <= i <= j <= |s| && r == s[i..j] && AllSpace(s[..i]) && AllSpace(s[j..])
    ensures r == [] <==> AllSpace(s)
    ensures !IsStripped(s) || r == s
  {
    var i := LeadingSpace(s);
    var t := s[i..];
    var j := TrailingCut(t);
    StripFacts(s, i, t, j);
    assert t[..j] == s[i..i + j] && s[i + j..] == t[j..];
    t[..j]
  }

  lemma StripFacts(s: string, i: nat, t: string, j: nat)
    requires i == LeadingSpace(s) && t == s[i..] && j == TrailingCut(t)
    ensures IsStripped(t[..j])
    ensures t[..j] == [] <==> AllSpace(s)
    ensures !IsStripped(s) || t[..j] == s
  {
    if i < |s| {
      assert t[0] == s[i];
      assert j > 0;
      assert !AllSpace(s);
    } else {
      assert AllSpace(s) by {
        assert s[..i] == s;
      }
    }
    if s != [] && IsStripped(s) {
      assert i == 0;
      assert t == s;
      assert j == |s|;
    }
  }

  /** The first index of `c` in `s`. */
  function IndexOf(s: string, c: char): (i: nat)
    requires c in s
    ensures i < |s| && s[i] == c
    ensures c !in s[..i]
  {
    if s[0] == c then 0
    else
      var i := 1 + IndexOf(s[1..], c);
      assert s[..i] == [s[0]] + s[1..][..i - 1];
      i
  }

  /** Inverse of `Split`: the parts with `sep` between consecutive ones. */
  function Join(parts: seq<string>, sep: char): string
    requires |parts| >= 1
  {
    if |parts| == 1 then parts[0] else parts[0] + [sep] + Join(parts[1..], sep)
  }

  /** `s.split(sep)` for a one-character separator: the pieces between
      consecutive occurrences of `sep`, empty pieces included. */
  function Split(s: string, sep: char): (parts: seq<string>)
    ensures |parts| >= 1
    ensures forall i :: 0 <= i < |parts| ==> sep !in parts[i]
    ensures |parts| == 1 <==> sep !in s
    decreases |s|
  {
    if sep !in s then [s]
    else
      var i := IndexOf(s, sep);
      [s[..i]] + Split(s[i + 1..], sep)
  }

  /** Joining the pieces of a split gives the string back. */
  lemma {:induction false} JoinSplit(s: string, sep: char)
    ensures Join(Split(s, sep), sep) == s
    decreases |s|
  {
    if sep in s {
      var i := IndexOf(s, sep);
      var rest := Split(s[i + 1..], sep);
      var parts := Split(s, sep);
      assert parts == [s[..i]] + rest;
      assert parts[1..] == rest;
      JoinSplit(s[i + 1..], sep);
      assert s == s[..i] + [sep] + s[i + 1..];
    }
  }

  /** The piece after the last `sep`: `s.split(sep)[-1]`. */
  function LastPiece(s: string, sep: char): string {
    var parts := Split(s, sep);
    parts[|parts| - 1]
  }

  /** When `s` holds `sep`, its last piece is the last piece of what follows
      the first `sep`. */
  lemma {:induction false} LastPieceStep(s: string, sep: char)
    requires sep in s
    ensures IndexOf(s, sep) < |s|
    ensures LastPiece(s, sep) == LastPiece(s[IndexOf(s, sep) + 1..], sep)
  {
    var i := IndexOf(s, sep);
    var rest := Split(s[i + 1..], sep);
    var parts := Split(s, sep);
    assert parts == [s[..i]] + rest;
    assert |parts| == |rest| + 1;
    assert parts[|parts| - 1] == rest[|rest| - 1];
    assert LastPiece(s, sep) == parts[|parts| - 1];
    assert LastPiece(s[i + 1..], sep) == rest[|rest| - 1];
  }

  /** The last piece of a split is a suffix of the string; when it is not the
      whole string, the separator stands right before it. */
  lemma {:induction false} LastPieceSuffix(s: string, sep: char)
    ensures |LastPiece(s, sep)| <= |s|
    ensures s[|s| - |LastPiece(s, sep)|..] == LastPiece(s, sep)
    ensures sep in s ==> |LastPiece(s, sep)| < |s| && s[|s| - |LastPiece(s, sep)| - 1] == sep
    decreases |s|
  {
    if sep in s {
      var i := IndexOf(s, sep);
      var tail := s[i + 1..];
      var l := LastPiece(s, sep);
      LastPieceStep(s, sep);
      LastPieceSuffix(tail, sep);
      var x := |tail| - |l|;
      assert |s| - |l| == i + 1 + x;
      assert s[i + 1 + x..] == tail[x..];
      if sep in tail {
        assert s[i + x] == tail[x - 1];
      } else {
        assert Split(tail, sep) == [tail];
        assert x == 0;
      }
    }
  }

  /** Splitting a joined list of separator-free parts gives the parts back. */
  lemma {:induction false} SplitJoin(parts: seq<string>, sep: char)
    requires |parts| >= 1
    requires forall i :: 0 <= i < |parts| ==> sep !in parts[i]
    ensures Split(Join(parts, sep), sep) == parts
    decreases |parts|
  {
    if |parts| > 1 {
      var s := Join(parts, sep);
      var rest := Join(parts[1..], sep);
      assert s == parts[0] + [sep] + rest;
      assert s[|parts[0]|] == sep;
      assert s[..|parts[0]|] == parts[0];
      assert IndexOf(s, sep) == |parts[0]|;
      assert s[|parts[0]| + 1..] == rest;
      SplitJoin(parts[1..], sep);
      assert [parts[0]] + parts[1..] == parts;
    }
  }

  /** Stripping a stripped string changes nothing. */
  lemma StripIdempotent(s: string)
    ensures Strip(Strip(s)) == Strip(s)
  {
  }
}
