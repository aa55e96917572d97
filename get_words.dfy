/**
 * workshop10/get_words.py: `load_file` joins the lines of a file, each with
 * its trailing whitespace removed, into one string; `get_words` returns what
 * the group of `word_freq_([a-z]*):` captures at each match that
 * `re.findall` finds in that string.
 *
 * The file is replaced by the sequence of lines that iterating over it
 * yields (each line still ending in its newline, if it has one). The regular
 * expression is modelled by a scanner for this one pattern.
 */
module GetWords {

  /** Python's `str.isspace()`, by code point: what `rstrip()` removes. */
  predicate IsSpace(c: char)
  {
    var k := c as int;
    (9 <= k <= 13) || (28 <= k <= 32) || k == 0x85 || k == 0xA0 || k == 0x1680
    || (0x2000 <= k <= 0x200A) || k == 0x2028 || k == 0x2029 || k == 0x202F
    || k == 0x205F || k == 0x3000
  }

  /** `line.rstrip()`: the longest prefix of line that does not end in whitespace. */
  function RStrip(line: string): (r: string)
    ensures r <= line
    ensures forall k :: |r| <= k < |line| ==> IsSpace(line[k])
    ensures r == [] || !IsSpace(r[|r| - 1])
  {
    if line != [] && IsSpace(line[|line| - 1]) then RStrip(line[..|line| - 1]) else line
  }

  /** Stripping twice strips nothing more. */
  lemma RStripIdempotent(line: string)
    ensures RStrip(RStrip(line)) == RStrip(line)
  {
  }

  /** The stripped lines, in order, with nothing between them. */
  function Joined(lines: seq<string>): string
  {
    if lines == [] then "" else Joined(lines[..|lines| - 1]) + RStrip(lines[|lines| - 1])
  }

  /** `load_file`, with the lines of the file passed in. */
  method LoadFile(lines: seq<string>) returns (s: string)
    ensures s == Joined(lines)
  {
    s := "";
    for k := 0 to |lines|
      invariant s == Joined(lines[..k])
    {
      assert lines[..k + 1][..k] == lines[..k];
      s := s + RStrip(lines[k]);
    }
    assert lines[..|lines|] == lines;
  }

  /** Joining two runs of lines joins their results. */
  lemma {:induction false} JoinedAppend(a: seq<string>, b: seq<string>)
    ensures Joined(a + b) == Joined(a) + Joined(b)
  {
    if b != [] {
      var b' := b[..|b| - 1];
      assert (a + b)[..|a + b| - 1] == a + b';
      JoinedAppend(a, b');
    } else {
      assert a + b == a;
    }
  }

  /** The result starts with the first stripped line, then the rest. */
  lemma JoinedCons(line: string, rest: seq<string>)
    ensures Joined([line] + rest) == RStrip(line) + Joined(rest)
  {
    JoinedAppend([line], rest);
    assert Joined([line]) == Joined([]) + RStrip(line);
  }

  /** The total length of the stripped lines. */
  function StrippedLength(lines: seq<string>): nat
  {
    if lines == [] then 0 else |RStrip(lines[0])| + StrippedLength(lines[1..])
  }

  /** The result is exactly as long as the stripped lines together. */
  lemma {:induction false} JoinedLength(lines: seq<string>)
    ensures |Joined(lines)| == StrippedLength(lines)
  {
    if lines != [] {
      JoinedLength(lines[1..]);
      JoinedCons(lines[0], lines[1..]);
      assert [lines[0]] + lines[1..] == lines;
    }
  }

  // ---------------------------------------------------------------------
  // The pattern word_freq_([a-z]*):

  /** The literal text before the group. */
  const Prefix: string := "word_freq_"

  /** `[a-z]`: an ASCII lower-case letter. */
  predicate Lower(c: char)
  {
    'a' <= c <= 'z'
  }

  predicate AllLower(w: string)
  {
    forall k :: 0 <= k < |w| ==> Lower(w[k])
  }

  /** The end of the longest run of lower-case letters that starts at k. */
  function RunEnd(s: string, k: nat): (e: nat)
    requires k <= |s|
    ensures k <= e <= |s|
    ensures forall j :: k <= j < e ==> Lower(s[j])
    ensures e == |s| || !Lower(s[e])
    decreases |s| - k
  {
    if k < |s| && Lower(s[k]) then RunEnd(s, k + 1) else k
  }

  /** "word_freq_" occurs in s at i. */
  predicate PrefixAt(s: string, i: nat)
  {
    i + |Prefix| <= |s| && s[i..i + |Prefix|] == Prefix
  }

  /**
   * The pattern matches at i: "word_freq_" is there, and the longest run of
   * lower-case letters after it is followed by ':'. A shorter run would be
   * followed by a letter, so the greedy `[a-z]*` can only succeed this way.
   */
  predicate MatchAt(s: string, i: nat)
  {
    PrefixAt(s, i) && RunEnd(s, i + |Prefix|) < |s| && s[RunEnd(s, i + |Prefix|)] == ':'
  }

  /** What the group captures at a match. */
  function WordAt(s: string, i: nat): string
    requires MatchAt(s, i)
  {
    s[i + |Prefix|..RunEnd(s, i + |Prefix|)]
  }

  /** Where a match ends, just past its ':'. */
  function MatchEnd(s: string, i: nat): nat
    requires MatchAt(s, i)
  {
    RunEnd(s, i + |Prefix|) + 1
  }

  /**
   * `findall` from position pos: try to match at pos; after a match go on
   * just past it, otherwise one character further.
   */
  function FindAllFrom(s: string, pos: nat): (words: seq<string>)
    requires pos <= |s|
    ensures forall k :: 0 <= k < |words| ==> AllLower(words[k])
    decreases |s| - pos
  {
    if pos == |s| then []
    else if MatchAt(s, pos) then [WordAt(s, pos)] + FindAllFrom(s, MatchEnd(s, pos))
    else FindAllFrom(s, pos + 1)
  }

  /** `regex.findall(string)` for word_freq_([a-z]*): */
  function FindAll(s: string): seq<string>
  {
    FindAllFrom(s, 0)
  }

  /** `get_words`, with the lines of the file passed in. */
  method GetWords(lines: seq<string>) returns (words: seq<string>)
    ensures words == FindAll(Joined(lines))
    ensures forall k :: 0 <= k < |words| ==> AllLower(words[k])
  {
    var s := LoadFile(lines);
    words := FindAll(s);
  }

  // ---------------------------------------------------------------------
  // What findall returns, stated through the positions where the pattern matches

  /** Every position from i on where the pattern matches, in increasing order. */
  function MatchPositions(s: string, i: nat): seq<nat>
    decreases |s| - i
  {
    if i >= |s| then []
    else (if MatchAt(s, i) then [i] else []) + MatchPositions(s, i + 1)
  }

  /** The pattern matches at every position in ps. */
  predicate PositionsAreAllMatches(s: string, ps: seq<nat>)
  {
    forall k :: 0 <= k < |ps| ==> MatchAt(s, ps[k])
  }

  /** The words captured at the given match positions. */
  function WordsAt(s: string, ps: seq<nat>): seq<string>
    requires PositionsAreAllMatches(s, ps)
  {
    if ps == [] then [] else [WordAt(s, ps[0])] + WordsAt(s, ps[1..])
  }

  /** An occurrence of "word_freq_" begins with "word_". */
  lemma PrefixLetters(s: string, j: nat)
    ensures PrefixAt(s, j) ==>
      s[j] == 'w' && s[j + 1] == 'o' && s[j + 2] == 'r' && s[j + 3] == 'd' && s[j + 4] == '_'
  {
    if PrefixAt(s, j) {
      var t := s[j..j + |Prefix|];
      assert t[0] == s[j] && t[1] == s[j + 1] && t[2] == s[j + 2] && t[3] == s[j + 3] && t[4] == s[j + 4];
    }
  }

  /** No occurrence of "word_freq_" starts strictly inside a match. */
  lemma NoPrefixInsideMatch(s: string, i: nat, j: nat)
    requires MatchAt(s, i) && i < j < MatchEnd(s, i)
    ensures !PrefixAt(s, j)
  {
    var e := RunEnd(s, i + |Prefix|);
    PrefixLetters(s, j);
    if j < i + |Prefix| {
      // "word_freq_" has no 'w' after its first letter
      assert s[j] == s[i..i + |Prefix|][j - i] == Prefix[j - i] != 'w';
    } else if j + 4 < e {
      assert Lower(s[j + 4]) && s[j + 4] != '_';
    } else if j + 4 == e {
      assert s[j + 4] == ':';
    } else {
      // the ':' at e would fall inside "word"
      assert j <= e < j + 4 && s[e] == ':';
    }
  }

  /** So no match starts between i and the end of the match at i. */
  lemma {:induction false} PositionsSkipMatch(s: string, i: nat, j: nat)
    requires MatchAt(s, i) && i < j <= MatchEnd(s, i)
    ensures MatchPositions(s, j) == MatchPositions(s, MatchEnd(s, i))
    decreases MatchEnd(s, i) - j
  {
    if j < MatchEnd(s, i) {
      NoPrefixInsideMatch(s, i, j);
      PositionsSkipMatch(s, i, j + 1);
    }
  }

  /** The positions hold exactly the matches from i on. */
  lemma {:induction false} PositionsAreMatches(s: string, i: nat)
    ensures forall j :: j in MatchPositions(s, i) <==> i <= j && MatchAt(s, j)
    decreases |s| - i
  {
    if i < |s| {
      PositionsAreMatches(s, i + 1);
    }
  }

  /** The matches at ps[k] and ps[k + 1] do not overlap. */
  predicate NonOverlapping(s: string, ps: seq<nat>)
  {
    forall k :: 0 <= k < |ps| - 1 ==> MatchAt(s, ps[k]) && MatchEnd(s, ps[k]) <= ps[k + 1]
  }

  /** Each match ends no later than the next one starts. */
  lemma {:induction false} PositionsDoNotOverlap(s: string, i: nat)
    ensures NonOverlapping(s, MatchPositions(s, i))
    decreases |s| - i
  {
    if i < |s| {
      var rest := MatchPositions(s, i + 1);
      PositionsDoNotOverlap(s, i + 1);
      if MatchAt(s, i) {
        var ps := [i] + rest;
        assert MatchPositions(s, i) == ps;
        if rest != [] {
          NextMatchAfterEnd(s, i);
        }
        forall k | 0 <= k < |ps| - 1
          ensures MatchAt(s, ps[k]) && MatchEnd(s, ps[k]) <= ps[k + 1]
        {
          if k > 0 {
            assert ps[k] == rest[k - 1] && ps[k + 1] == rest[k];
          }
        }
      } else {
        assert MatchPositions(s, i) == rest;
      }
    }
  }

  /** The first match after the one at i starts no earlier than where it ends. */
  lemma NextMatchAfterEnd(s: string, i: nat)
    requires MatchAt(s, i) && MatchPositions(s, i + 1) != []
    ensures MatchEnd(s, i) <= MatchPositions(s, i + 1)[0]
  {
    var rest := MatchPositions(s, i + 1);
    PositionsAreMatches(s, i + 1);
    PositionsSkipMatch(s, i, i + 1);
    PositionsAreMatches(s, MatchEnd(s, i));
    assert rest[0] in MatchPositions(s, MatchEnd(s, i));
  }

  /** The scanner returns the words at exactly those positions, in order. */
  lemma {:induction false} FindAllFromIsWordsAtPositions(s: string, pos: nat)
    requires pos <= |s|
    ensures PositionsAreAllMatches(s, MatchPositions(s, pos))
    ensures FindAllFrom(s, pos) == WordsAt(s, MatchPositions(s, pos))
    decreases |s| - pos
  {
    PositionsAreMatches(s, pos);
    if pos < |s| {
      if MatchAt(s, pos) {
        var e := MatchEnd(s, pos);
        FindAllFromIsWordsAtPositions(s, e);
        PositionsSkipMatch(s, pos, pos + 1);
        PositionsAreMatches(s, pos + 1);
        assert MatchPositions(s, pos)[1..] == MatchPositions(s, e);
      } else {
        FindAllFromIsWordsAtPositions(s, pos + 1);
        assert MatchPositions(s, pos) == MatchPositions(s, pos + 1);
      }
    }
  }

  /**
   * What `get_words` returns, in full: with ps the positions where the
   * pattern matches, in increasing order, the k-th word is the one captured
   * at ps[k]; every match is among them; and the matches do not overlap.
   */
  lemma FindAllCharacterised(s: string)
    ensures var ps := MatchPositions(s, 0);
      && |FindAll(s)| == |ps|
      && (forall k :: 0 <= k < |ps| ==> MatchAt(s, ps[k]) && FindAll(s)[k] == WordAt(s, ps[k]))
      && (forall j: nat :: MatchAt(s, j) ==> j in ps)
      && (forall k :: 0 <= k < |ps| - 1 ==> MatchEnd(s, ps[k]) <= ps[k + 1])
  {
    var ps := MatchPositions(s, 0);
    FindAllFromIsWordsAtPositions(s, 0);
    PositionsAreMatches(s, 0);
    PositionsDoNotOverlap(s, 0);
    WordsAtIndex(s, ps);
  }

  lemma {:induction false} WordsAtIndex(s: string, ps: seq<nat>)
    requires PositionsAreAllMatches(s, ps)
    ensures |WordsAt(s, ps)| == |ps|
    ensures forall k :: 0 <= k < |ps| ==> WordsAt(s, ps)[k] == WordAt(s, ps[k])
  {
    if ps != [] {
      WordsAtIndex(s, ps[1..]);
    }
  }

  /** "word_freq_" + w + ":" stands in s at i. */
  predicate OccursAt(s: string, i: nat, w: string)
  {
    i + |Prefix| + |w| < |s| && s[i..i + |Prefix| + |w| + 1] == Prefix + w + ":"
  }

  /**
   * Soundness: each returned word w stands in s as "word_freq_" + w + ":",
   * and consists of lower-case letters only.
   */
  lemma FindAllSound(s: string, w: string)
    requires w in FindAll(s)
    ensures AllLower(w)
    ensures exists i: nat :: OccursAt(s, i, w)
  {
    FindAllCharacterised(s);
    var ps := MatchPositions(s, 0);
    var k :| 0 <= k < |FindAll(s)| && FindAll(s)[k] == w;
    MatchOccurs(s, ps[k]);
  }

  /** At a match, "word_freq_" + the captured word + ":" stands in s. */
  lemma MatchOccurs(s: string, i: nat)
    requires MatchAt(s, i)
    ensures OccursAt(s, i, WordAt(s, i))
  {
    var e := RunEnd(s, i + |Prefix|);
    assert s[i..e + 1] == s[i..i + |Prefix|] + s[i + |Prefix|..e] + [s[e]];
  }

  /**
   * Completeness: wherever "word_freq_" is followed by a lower-case run that
   * ends in ':', findall returns that run; where the run is followed by
   * anything else (a digit, an upper-case letter, '_', the end of s) nothing
   * is returned for it.
   */
  lemma FindAllComplete(s: string, i: nat)
    requires PrefixAt(s, i)
    ensures MatchAt(s, i) ==> exists k :: 0 <= k < |FindAll(s)| && FindAll(s)[k] == WordAt(s, i)
    ensures !MatchAt(s, i) ==> i !in MatchPositions(s, 0)
  {
    FindAllCharacterised(s);
    PositionsAreMatches(s, 0);
    var ps := MatchPositions(s, 0);
    if MatchAt(s, i) {
      var k :| 0 <= k < |ps| && ps[k] == i;
      assert FindAll(s)[k] == WordAt(s, i);
    }
  }

  /** A string without "word_freq_" in it yields no words. */
  lemma {:induction false} NoPrefixNoWords(s: string, pos: nat)
    requires pos <= |s|
    requires forall i: nat :: pos <= i ==> !PrefixAt(s, i)
    ensures FindAllFrom(s, pos) == []
    decreases |s| - pos
  {
    if pos < |s| {
      NoPrefixNoWords(s, pos + 1);
    }
  }

  /** Past the last 'w' of s there are no words. */
  lemma {:induction false} NoWNoWords(s: string, pos: nat)
    requires pos <= |s|
    requires forall i :: pos <= i < |s| ==> s[i] != 'w'
    ensures FindAllFrom(s, pos) == []
    decreases |s| - pos
  {
    if pos < |s| {
      assert !PrefixAt(s, pos) by {
        if pos + |Prefix| <= |s| {
          assert s[pos..pos + |Prefix|][0] != Prefix[0];
        }
      }
      NoWNoWords(s, pos + 1);
    }
  }

  /**
   * Lines are joined without a separator, so a match can run across a line
   * break of the file.
   */
  lemma MatchAcrossLines()
    ensures FindAll(Joined(["word_fr\n", "eq_make:\n"])) == ["make"]
  {
    JoinedExample();
    var s := "word_freq_make:";
    assert RunEnd(s, 10) == 14;
    assert s[0..10] == Prefix;
    assert MatchAt(s, 0) && WordAt(s, 0) == "make" && MatchEnd(s, 0) == 15;
  }

  lemma JoinedExample()
    ensures Joined(["word_fr\n", "eq_make:\n"]) == "word_freq_make:"
  {
    StripNewline("word_fr");
    StripNewline("eq_make:");
    var lines := ["word_fr\n", "eq_make:\n"];
    assert lines[..1] == ["word_fr\n"];
    assert Joined(lines[..1]) == "word_fr" by {
      assert lines[..1][..0] == [];
    }
    assert Joined(lines) == Joined(lines[..1]) + RStrip(lines[1]);
  }

  /** A line that ends in "\n" after a non-blank character loses just the "\n". */
  lemma StripNewline(text: string)
    requires text != [] && !IsSpace(text[|text| - 1])
    ensures RStrip(text + "\n") == text
  {
    assert (text + "\n")[..|text|] == text;
  }

  /** A column name with a digit in it, such as word_freq_3d, is not found. */
  lemma DigitNameNotFound()
    ensures FindAll("word_freq_3d:") == []
  {
    var s := "word_freq_3d:";
    assert s[0..10] == Prefix;
    assert RunEnd(s, 10) == 10;
    assert !MatchAt(s, 0);
    NoWNoWords(s, 1);
  }
}
