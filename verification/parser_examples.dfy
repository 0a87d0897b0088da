/**
 Worked responses for the parser: a value that runs across a line break, one
 that runs across a blank line and indentation, and two keys that differ only
 in case.
 */
module ParserExamples {
  import opened Text
  import opened Records
  import opened ResponseParser

  /** A match that runs to the end of the text is the last thing the scan
      finds. */
  lemma ScanLastMatch(t: string, m: Match)
    requires IsMatchAt(t, m) && m.end == |t|
    ensures Scan(t, m.start) == [m]
  {
    MatchAtComplete(t, m);
  }

  /** A match read off the text's shape: some prefix, `**`, a word-character
      key, `:**`, a whitespace run, a value not starting with whitespace and
      free of line feeds, then the end of the text or a line feed. */
  lemma MatchOfParts(t: string, pre: string, k: string, w: string, v: string, rest: string)
    requires t == pre + "**" + k + ":**" + w + v + rest
    requires |k| > 0 && AllWord(k)
    requires |w| > 0 && AllSpace(w)
    requires |v| > 0 && !IsSpace(v[0]) && '\n' !in v
    requires rest == [] || rest[0] == '\n'
    ensures IsMatchAt(t, Match(|pre|, k, v, |pre| + 5 + |k| + |w| + |v|))
  {
    var p := |pre|;
    var keyEnd := p + 2 + |k|;
    var valueStart := keyEnd + 3 + |w|;
    var e := valueStart + |v|;
    assert t[p..p + 2] == "**";
    assert t[p + 2..keyEnd] == k;
    assert t[keyEnd..keyEnd + 3] == ":**";
    assert t[keyEnd + 3..valueStart] == w;
    assert t[valueStart..e] == v;
    assert t[e..] == rest;
    forall i | keyEnd + 3 <= i < valueStart
      ensures IsSpace(t[i])
    {
      assert t[i] == w[i - keyEnd - 3];
    }
    assert t[valueStart] == v[0];
  }

  /** The pairs are the normalised groups of the matches the scan finds. */
  lemma PairsOfScan(t: string, ms: seq<Match>)
    requires Scan(t, 0) == ms
    ensures |Pairs(t)| == |ms|
    ensures forall i :: 0 <= i < |ms| ==> Pairs(t)[i] == Normalize((ms[i].key, ms[i].value))
  {
  }

  lemma PairsOfTwo(t: string, m1: Match, m2: Match)
    requires Scan(t, 0) == [m1, m2]
    ensures Pairs(t) == [Normalize((m1.key, m1.value)), Normalize((m2.key, m2.value))]
  {
    PairsOfScan(t, [m1, m2]);
  }

  /** A key without upper-case letters and a value without surrounding
      whitespace are stored as they are. */
  lemma NormalizeKeeps(k: string, v: string)
    requires IsStripped(k) && !HasUpper(k) && IsStripped(v)
    ensures Normalize((k, v)) == (k, v)
  {
  }

  /** The dictionary is determined by the pairs. */
  lemma ParseOfPairs(t: string, ps: seq<(string, string)>)
    requires Pairs(t) == ps
    ensures ParseResponse(t) == FromPairs(ps)
  {
  }

  /** A response with one pair parses to that entry alone. */
  lemma ParseOfOnePair(t: string, k: string, v: string)
    requires Pairs(t) == [(k, v)]
    ensures ParseResponse(t) == Dict([k], map[k := v])
    ensures forall k' :: k' != k ==> ParseResponse(t).Get(k') == None
  {
    ParseOfPairs(t, [(k, v)]);
    FromOnePair(k, v);
  }

  /** A single pair makes a one-entry dictionary. */
  lemma FromOnePair(k: string, v: string)
    ensures FromPairs([(k, v)]) == Dict([k], map[k := v])
  {
    assert [(k, v)][..0] == [];
  }

  /** Two pairs with the same key make one entry holding the second value. */
  lemma FromSameKeyPairs(k: string, v1: string, v2: string)
    ensures FromPairs([(k, v1), (k, v2)]) == Dict([k], map[k := v2])
  {
    assert [(k, v1), (k, v2)][..1] == [(k, v1)];
    FromOnePair(k, v1);
  }

  /** Literal facts: `gst`, `1` and `2` are stripped, and `gst` is lower-case. */
  lemma GstPlain()
    ensures IsStripped("gst") && !HasUpper("gst")
    ensures IsStripped("1") && IsStripped("2")
  {
  }

  /** The key `gst` with its `\s+` run crossing the line feed. */
  lemma CrossLineMatch(t: string)
    requires t == "**gst:**\n**total:** 5"
    ensures IsMatchAt(t, Match(0, "gst", "**total:** 5", 21))
  {
    CrossLineShape(t);
    CrossLinePieces();
    MatchOfParts(t, [], "gst", "\n", "**total:** 5", []);
  }

  /** Literal fact: the cross-line text cut into the pieces of a match. */
  lemma CrossLineShape(t: string)
    requires t == "**gst:**\n**total:** 5"
    ensures t == [] + "**" + "gst" + ":**" + "\n" + "**total:** 5" + []
  {
  }

  /** Literal facts about the pieces of the cross-line match. */
  lemma CrossLinePieces()
    ensures AllWord("gst") && AllSpace("\n")
    ensures !IsSpace("**total:** 5"[0]) && '\n' !in "**total:** 5"
  {
  }

  lemma CrossLinePairs(t: string)
    requires t == "**gst:**\n**total:** 5"
    ensures Pairs(t) == [("gst", "**total:** 5")]
  {
    var m := Match(0, "gst", "**total:** 5", 21);
    CrossLineMatch(t);
    ScanLastMatch(t, m);
    PairsOfScan(t, [m]);
    GstPlain();
    assert IsStripped("**total:** 5");
    NormalizeKeeps("gst", "**total:** 5");
  }

  /** `\s+` also matches a line feed, so a key with nothing after `:**` on
      its line takes the next line holding a non-whitespace character, from
      that character on and key marker and all, as its value; here `total`
      is no key. */
  lemma CrossLine(t: string)
    requires t == "**gst:**\n**total:** 5"
    ensures ParseResponse(t) == Dict(["gst"], map["gst" := "**total:** 5"])
    ensures ParseResponse(t).Get("total") == None
  {
    CrossLinePairs(t);
    ParseOfOnePair(t, "gst", "**total:** 5");
    assert "total" != "gst";
  }

  /** The key `gst` with its `\s+` run crossing a blank line and the
      indentation of the next line. */
  lemma BlankLineMatch(t: string)
    requires t == "**gst:**\n\n  x"
    ensures IsMatchAt(t, Match(0, "gst", "x", 13))
  {
    BlankLineShape(t);
    BlankLinePieces();
    MatchOfParts(t, [], "gst", "\n\n  ", "x", []);
  }

  /** Literal fact: the blank-line text cut into the pieces of a match. */
  lemma BlankLineShape(t: string)
    requires t == "**gst:**\n\n  x"
    ensures t == [] + "**" + "gst" + ":**" + "\n\n  " + "x" + []
  {
  }

  /** Literal facts about the pieces of the blank-line match. */
  lemma BlankLinePieces()
    ensures AllWord("gst") && AllSpace("\n\n  ")
    ensures !IsSpace("x"[0]) && '\n' !in "x" && IsStripped("x")
  {
  }

  lemma BlankLinePairs(t: string)
    requires t == "**gst:**\n\n  x"
    ensures Pairs(t) == [("gst", "x")]
  {
    var m := Match(0, "gst", "x", 13);
    BlankLineMatch(t);
    ScanLastMatch(t, m);
    PairsOfScan(t, [m]);
    GstPlain();
    BlankLinePieces();
    NormalizeKeeps("gst", "x");
  }

  /** The whitespace run skips blank lines and leading indentation: a key
      with nothing after `:**` takes the first non-whitespace text that
      follows, here `x` two lines further down. */
  lemma BlankLine(t: string)
    requires t == "**gst:**\n\n  x"
    ensures ParseResponse(t) == Dict(["gst"], map["gst" := "x"])
  {
    BlankLinePairs(t);
    ParseOfOnePair(t, "gst", "x");
  }

  lemma CaseDuplicateFirst(t: string)
    requires t == "**GST:** 1\n**gst:** 2"
    ensures IsMatchAt(t, Match(0, "GST", "1", 10))
  {
    CaseDuplicateShape(t);
    CaseDuplicatePieces();
    MatchOfParts(t, [], "GST", " ", "1", "\n**gst:** 2");
  }

  lemma CaseDuplicateSecond(t: string)
    requires t == "**GST:** 1\n**gst:** 2"
    ensures IsMatchAt(t, Match(11, "gst", "2", 21))
  {
    CaseDuplicateShape(t);
    CaseDuplicatePieces();
    MatchOfParts(t, "**GST:** 1\n", "gst", " ", "2", []);
  }

  /** Literal fact: the case-duplicate text cut around each of its two matches. */
  lemma CaseDuplicateShape(t: string)
    requires t == "**GST:** 1\n**gst:** 2"
    ensures t == [] + "**" + "GST" + ":**" + " " + "1" + "\n**gst:** 2"
    ensures t == "**GST:** 1\n" + "**" + "gst" + ":**" + " " + "2" + []
    ensures |"**GST:** 1\n"| == 11
  {
  }

  /** Literal facts about the pieces of the two case-duplicate matches. */
  lemma CaseDuplicatePieces()
    ensures AllWord("GST") && AllWord("gst") && AllSpace(" ")
    ensures !IsSpace("1"[0]) && !IsSpace("2"[0]) && '\n' !in "1" && '\n' !in "2"
    ensures "\n**gst:** 2"[0] == '\n'
  {
  }

  lemma CaseDuplicateScan(t: string)
    requires t == "**GST:** 1\n**gst:** 2"
    ensures Scan(t, 0) == [Match(0, "GST", "1", 10), Match(11, "gst", "2", 21)]
  {
    var m1 := Match(0, "GST", "1", 10);
    var m2 := Match(11, "gst", "2", 21);
    CaseDuplicateFirst(t);
    CaseDuplicateSecond(t);
    MatchAtComplete(t, m1);
    ScanLastMatch(t, m2);
    assert MatchAt(t, 10) == None;
  }

  /** `GST` is stored as `gst`. */
  lemma NormalizeUpperKey(v: string)
    requires IsStripped(v)
    ensures Normalize(("GST", v)) == ("gst", v)
  {
    assert IsStripped("GST");
    assert Lower("GST") == "gst" by {
      assert LowerChar('G') == 'g' && LowerChar('S') == 's' && LowerChar('T') == 't';
    }
  }

  lemma CaseDuplicatePairs(t: string)
    requires Scan(t, 0) == [Match(0, "GST", "1", 10), Match(11, "gst", "2", 21)]
    ensures Pairs(t) == [("gst", "1"), ("gst", "2")]
  {
    PairsOfTwo(t, Match(0, "GST", "1", 10), Match(11, "gst", "2", 21));
    NormalizeUpperKey("1");
    GstPlain();
    NormalizeKeeps("gst", "2");
  }

  /** Keys are lower-cased before they are stored, so the second line
      overwrites the first. */
  lemma CaseDuplicate(t: string)
    requires t == "**GST:** 1\n**gst:** 2"
    ensures ParseResponse(t) == Dict(["gst"], map["gst" := "2"])
  {
    CaseDuplicateScan(t);
    CaseDuplicatePairs(t);
    ParseOfPairs(t, [("gst", "1"), ("gst", "2")]);
    FromSameKeyPairs("gst", "1", "2");
  }
}
