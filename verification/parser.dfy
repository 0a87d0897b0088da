/**
 The response-text parser of `extract_invoice_data`: `re.findall` of the pattern
 `\*\*([\w_]+):\*\*\s+(.*)` over the model's answer, folded into a dictionary
 whose keys are stripped and lower-cased and whose values are stripped.
 */
module ResponseParser {
  import opened Text
  import opened Records

  /** One match of the pattern: where it starts and ends in the text, and its
      two groups. */
  datatype Match = Match(start: nat, key: string, value: string, end: nat)

  /** The three character classes the pattern repeats: `\w` in the key, `\s`
      after `:**`, and `.` (anything but a line feed) in the value. */
  datatype CharClass = WordChars | Spaces | LineChars

  predicate InClass(cls: CharClass, c: char) {
    match cls
    case WordChars => IsWordChar(c)
    case Spaces => IsSpace(c)
    case LineChars => NotNewline(c)
  }

  /** End of the longest run of characters of class `cls` from `i` on. */
  function RunEnd(t: string, i: nat, cls: CharClass): (j: nat)
    requires i <= |t|
    ensures i <= j <= |t|
    ensures forall k :: i <= k < j ==> InClass(cls, t[k])
    ensures j == |t| || !InClass(cls, t[j])
    decreases |t| - i
  {
    if i < |t| && InClass(cls, t[i]) then RunEnd(t, i + 1, cls) else i
  }

  /** The pattern matches `t` at `m.start`, with the groups and end that
      Python's backtracking matcher picks: `**`, a run of word characters (the
      key), `:**`, the whole run of whitespace that follows (it may cross line
      breaks), and everything up to the next line feed (the value). */
  predicate IsMatchAt(t: string, m: Match) {
    var p := m.start;
    var keyEnd := p + 2 + |m.key|;
    var valueStart := m.end - |m.value|;
    && keyEnd + 3 < valueStart <= m.end <= |t|
    && t[p] == '*' && t[p + 1] == '*'
    && |m.key| > 0
    && t[p + 2..keyEnd] == m.key
    && AllWord(m.key)
    && t[keyEnd] == ':' && t[keyEnd + 1] == '*' && t[keyEnd + 2] == '*'
    && (forall k :: keyEnd + 3 <= k < valueStart ==> IsSpace(t[k]))
    && (valueStart == |t| || !IsSpace(t[valueStart]))
    && t[valueStart..m.end] == m.value
    && '\n' !in m.value
    && (m.end == |t| || t[m.end] == '\n')
  }

  /** `RunEnd` stops at the first character outside the run. */
  lemma {:induction false} RunEndAt(t: string, i: nat, j: nat, cls: CharClass)
    requires i <= j <= |t|
    requires forall k :: i <= k < j ==> InClass(cls, t[k])
    requires j == |t| || !InClass(cls, t[j])
    ensures RunEnd(t, i, cls) == j
    decreases j - i
  {
    if i < j {
      RunEndAt(t, i + 1, j, cls);
    }
  }

  /** A match fixes the three runs the matcher measures: the key, the
      whitespace after `:**` and the value. */
  lemma RunsOfMatch(t: string, m: Match)
    requires IsMatchAt(t, m)
    ensures RunEnd(t, m.start + 2, WordChars) == m.start + 2 + |m.key|
    ensures RunEnd(t, m.start + 5 + |m.key|, Spaces) == m.end - |m.value|
    ensures RunEnd(t, m.end - |m.value|, LineChars) == m.end
  {
    var keyEnd := m.start + 2 + |m.key|;
    var valueStart := m.end - |m.value|;
    forall k | m.start + 2 <= k < keyEnd
      ensures IsWordChar(t[k])
    {
      assert t[k] == m.key[k - m.start - 2];
    }
    RunEndAt(t, m.start + 2, keyEnd, WordChars);
    RunEndAt(t, keyEnd + 3, valueStart, Spaces);
    forall k | valueStart <= k < m.end
      ensures NotNewline(t[k])
    {
      assert t[k] == m.value[k - valueStart];
    }
    RunEndAt(t, valueStart, m.end, LineChars);
  }

  /** The runs measured by the matcher form a match. */
  lemma MatchOfRuns(t: string, m: Match, keyEnd: nat, valueStart: nat)
    requires m.start + 2 < keyEnd && keyEnd + 3 < valueStart <= m.end <= |t|
    requires t[m.start] == '*' && t[m.start + 1] == '*'
    requires keyEnd == RunEnd(t, m.start + 2, WordChars)
    requires t[keyEnd] == ':' && t[keyEnd + 1] == '*' && t[keyEnd + 2] == '*'
    requires valueStart == RunEnd(t, keyEnd + 3, Spaces)
    requires m.end == RunEnd(t, valueStart, LineChars)
    requires m.key == t[m.start + 2..keyEnd] && m.value == t[valueStart..m.end]
    ensures IsMatchAt(t, m)
  {
    forall k | 0 <= k < |m.key|
      ensures IsWordChar(m.key[k])
    {
      assert m.key[k] == t[m.start + 2 + k];
    }
    forall k | 0 <= k < |m.value|
      ensures m.value[k] != '\n'
    {
      assert m.value[k] == t[valueStart + k];
      assert NotNewline(t[valueStart + k]);
    }
  }

  /** One attempt of the matcher at position `p`. */
  function MatchAt(t: string, p: nat): (r: Option<Match>)
    requires p <= |t|
    ensures r.Some? ==> r.value.start == p && IsMatchAt(t, r.value)
    ensures r.Some? ==> p < r.value.end <= |t|
  {
    if p + 2 <= |t| && t[p] == '*' && t[p + 1] == '*' then
      var keyEnd := RunEnd(t, p + 2, WordChars);
      if keyEnd > p + 2 && keyEnd + 3 <= |t| && t[keyEnd] == ':' && t[keyEnd + 1] == '*' && t[keyEnd + 2] == '*' then
        var valueStart := RunEnd(t, keyEnd + 3, Spaces);
        if valueStart > keyEnd + 3 then
          var e := RunEnd(t, valueStart, LineChars);
          var m := Match(p, t[p + 2..keyEnd], t[valueStart..e], e);
          MatchOfRuns(t, m, keyEnd, valueStart);
          Some(m)
        else None
      else None
    else None
  }

  /** When the three runs end where a match needs them to, the matcher
      returns the match they delimit. */
  lemma MatchAtOfRuns(t: string, p: nat, keyEnd: nat, valueStart: nat)
    requires p + 2 < keyEnd && keyEnd + 3 < valueStart <= |t|
    requires t[p] == '*' && t[p + 1] == '*'
    requires RunEnd(t, p + 2, WordChars) == keyEnd
    requires t[keyEnd] == ':' && t[keyEnd + 1] == '*' && t[keyEnd + 2] == '*'
    requires RunEnd(t, keyEnd + 3, Spaces) == valueStart
    ensures MatchAt(t, p) == Some(Match(p, t[p + 2..keyEnd], t[valueStart..RunEnd(t, valueStart, LineChars)], RunEnd(t, valueStart, LineChars)))
  {
  }

  /** The matcher finds every match: a match of the pattern at a position is
      the one `MatchAt` returns there, so the match at a position is unique. */
  lemma MatchAtComplete(t: string, m: Match)
    requires IsMatchAt(t, m)
    ensures MatchAt(t, m.start) == Some(m)
  {
    var p := m.start;
    var keyEnd := p + 2 + |m.key|;
    var valueStart := m.end - |m.value|;
    RunsOfMatch(t, m);
    MatchAtOfRuns(t, p, keyEnd, valueStart);
  }

  /** The scan of `re.findall`, leftmost and non-overlapping: after a match
      it resumes at the match's end, after a failed attempt one character
      further on. */
  function Scan(t: string, p: nat): (r: seq<Match>)
    requires p <= |t|
    ensures forall m :: m in r ==> IsMatchAt(t, m)
    ensures forall i :: 0 <= i < |r| ==> p <= r[i].start < r[i].end <= |t|
    ensures forall i :: 0 <= i < |r| - 1 ==> r[i].end <= r[i + 1].start
    decreases |t| - p
  {
    if p == |t| then []
    else
      match MatchAt(t, p)
      case None => Scan(t, p + 1)
      case Some(m) =>
        var rest := Scan(t, m.end);
        PrependMatch(p, m, rest);
        [m] + rest
  }

  /** A match followed by matches that start after it still forms a list of
      matches in left-to-right order. */
  lemma PrependMatch(p: nat, m: Match, rest: seq<Match>)
    requires p <= m.start < m.end
    requires forall i :: 0 <= i < |rest| ==> m.end <= rest[i].start < rest[i].end
    requires forall i :: 0 <= i < |rest| - 1 ==> rest[i].end <= rest[i + 1].start
    ensures forall i :: 0 <= i < |[m] + rest| ==> p <= ([m] + rest)[i].start < ([m] + rest)[i].end
    ensures forall i :: 0 <= i < |[m] + rest| - 1 ==> ([m] + rest)[i].end <= ([m] + rest)[i + 1].start
  {
    var r := [m] + rest;
    forall i | 0 <= i < |r|
      ensures p <= r[i].start < r[i].end
    {
      if i > 0 {
        assert r[i] == rest[i - 1];
      }
    }
    forall i | 0 <= i < |r| - 1
      ensures r[i].end <= r[i + 1].start
    {
      assert r[i + 1] == rest[i];
      if i > 0 {
        assert r[i] == rest[i - 1];
      }
    }
  }

  /** Position `q` lies strictly inside one of the matches `r`. */
  predicate Shadowed(r: seq<Match>, q: nat) {
    exists i :: 0 <= i < |r| && r[i].start < q < r[i].end
  }

  /** Every match of the pattern at or after `p` is in `r` or starts strictly
      inside a match of `r`. */
  ghost predicate CompleteFrom(t: string, p: nat, r: seq<Match>) {
    forall m: Match :: p <= m.start && IsMatchAt(t, m) ==> m in r || Shadowed(r, m.start)
  }

  /** The scan misses nothing: every match of the pattern that starts at or
      after `p` is either found or starts strictly inside a found one (which
      is why `findall` skips it). */
  lemma {:induction false} ScanComplete(t: string, p: nat)
    requires p <= |t|
    ensures CompleteFrom(t, p, Scan(t, p))
    decreases |t| - p
  {
    if p < |t| {
      match MatchAt(t, p)
      case None =>
        ScanComplete(t, p + 1);
        NoMatchAt(t, p);
      case Some(m0) =>
        ScanComplete(t, m0.end);
        ScanCompleteStep(t, p, m0);
    }
  }

  lemma NoMatchAt(t: string, p: nat)
    requires p < |t|
    requires MatchAt(t, p).None?
    requires CompleteFrom(t, p + 1, Scan(t, p + 1))
    ensures CompleteFrom(t, p, Scan(t, p))
  {
    forall m: Match | p <= m.start && IsMatchAt(t, m)
      ensures m in Scan(t, p) || Shadowed(Scan(t, p), m.start)
    {
      if m.start == p {
        MatchAtComplete(t, m);
        assert false;
      }
    }
  }

  lemma ScanCompleteStep(t: string, p: nat, m0: Match)
    requires p < |t|
    requires MatchAt(t, p) == Some(m0)
    requires CompleteFrom(t, m0.end, Scan(t, m0.end))
    ensures CompleteFrom(t, p, Scan(t, p))
  {
    var r := Scan(t, p);
    var rest := Scan(t, m0.end);
    assert r == [m0] + rest;
    forall m: Match | p <= m.start && IsMatchAt(t, m)
      ensures m in r || Shadowed(r, m.start)
    {
      if m.start == p {
        MatchAtComplete(t, m);
      } else if m.start < m0.end {
        assert r[0].start < m.start < r[0].end;
      } else if m in rest {
        assert m in r;
      } else {
        var i :| 0 <= i < |rest| && rest[i].start < m.start < rest[i].end;
        assert r[i + 1] == rest[i];
      }
    }
  }

  /** `re.findall(pattern, t)`: the two groups of every match the scan finds. */
  function Findall(t: string): (groups: seq<(string, string)>)
    ensures |groups| == |Scan(t, 0)|
  {
    var ms := Scan(t, 0);
    seq(|ms|, i requires 0 <= i < |ms| => (ms[i].key, ms[i].value))
  }

  /** A pair as the comprehension stores it: key stripped and lower-cased,
      value stripped. */
  function Normalize(g: (string, string)): (string, string) {
    (Lower(Strip(g.0)), Strip(g.1))
  }

  /** The pairs the comprehension assigns, in match order. */
  function Pairs(t: string): (ps: seq<(string, string)>)
    ensures |ps| == |Scan(t, 0)|
  {
    var gs := Findall(t);
    seq(|gs|, i requires 0 <= i < |gs| => Normalize(gs[i]))
  }

  /** A key of the dictionary is a non-empty run of word characters without
      upper-case letters; a value holds no line feed and is stripped. */
  predicate WellFormedEntry(k: string, v: string) {
    && |k| > 0 && AllWord(k) && !HasUpper(k)
    && '\n' !in v && IsStripped(v)
  }

  /** The groups of a match, normalised, form a well-formed entry. */
  lemma MatchWellFormed(t: string, m: Match)
    requires IsMatchAt(t, m)
    ensures WellFormedEntry(Normalize((m.key, m.value)).0, Normalize((m.key, m.value)).1)
  {
    assert IsStripped(m.key) by {
      assert IsWordChar(m.key[0]) && IsWordChar(m.key[|m.key| - 1]);
    }
    assert Strip(m.key) == m.key;
  }

  /** Every pair the comprehension assigns is well formed. */
  lemma PairsWellFormed(t: string)
    ensures forall i :: 0 <= i < |Pairs(t)| ==> WellFormedEntry(Pairs(t)[i].0, Pairs(t)[i].1)
  {
    var ms := Scan(t, 0);
    forall i | 0 <= i < |Pairs(t)|
      ensures WellFormedEntry(Pairs(t)[i].0, Pairs(t)[i].1)
    {
      assert ms[i] in ms;
      assert Pairs(t)[i] == Normalize((ms[i].key, ms[i].value));
      MatchWellFormed(t, ms[i]);
    }
  }

  /** Lines 65-69 of `Invoice-pro.py`: the dictionary built from the response
      text. Keys and values are well formed; the dictionary is empty iff the
      pattern matches nowhere; a key found more than once keeps the value of
      its last occurrence; there is one entry per distinct normalised key. */
  function ParseResponse(t: string): (d: Dict<string>)
    ensures d.Valid()
    ensures forall k :: k in d.values ==> WellFormedEntry(k, d.values[k])
    ensures d.Size() == 0 <==> forall m: Match :: !IsMatchAt(t, m)
    ensures forall i :: 0 <= i < |Pairs(t)| && LastFor(Pairs(t), i) ==> d.Get(Pairs(t)[i].0) == Some(Pairs(t)[i].1)
    ensures d.Size() == |set k | k in KeysOf(Pairs(t))|
  {
    ParseResponseFacts(t);
    FromPairsLastWins(Pairs(t));
    FromPairsSize(Pairs(t));
    FromPairs(Pairs(t))
  }

  lemma ParseResponseFacts(t: string)
    ensures forall k :: k in FromPairs(Pairs(t)).values ==> WellFormedEntry(k, FromPairs(Pairs(t)).values[k])
    ensures FromPairs(Pairs(t)).Size() == 0 <==> forall m: Match :: !IsMatchAt(t, m)
  {
    var ps := Pairs(t);
    var d := FromPairs(ps);
    PairsWellFormed(t);
    FromPairsEntries(ps);
    ScanComplete(t, 0);
    if |ps| > 0 {
      assert KeysOf(ps)[0] in d.values;
      assert Scan(t, 0)[0] in Scan(t, 0);
    } else {
      assert d == Empty();
    }
  }
}
