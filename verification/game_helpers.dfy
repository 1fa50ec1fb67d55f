/**
 * The word-mask helpers: building the dashed display of a word, overwriting
 * chosen positions of a string, and locating the non-overlapping occurrences
 * of a substring.
 */
module GameHelpers {

  /** The character that stands for a letter not yet revealed. */
  const Blank: char := '-'

  /** `n` blanks: the fully hidden mask of a word of length `n`. */
  function Dashes(n: nat): (r: string)
    ensures |r| == n
    ensures forall i :: 0 <= i < n ==> r[i] == Blank
  {
    if n == 0 then [] else Dashes(n - 1) + [Blank]
  }

  /**
   * The display of `word` once the characters in `guessed` have been guessed:
   * every guessed letter is shown in place, every other letter is a blank.
   */
  function WordStatus(word: string, guessed: seq<char>): (r: string)
    ensures |r| == |word|
    ensures forall i :: 0 <= i < |word| ==> r[i] == (if word[i] in guessed then word[i] else Blank)
  {
    if |word| == 0 then []
    else
      var last := word[|word| - 1];
      WordStatus(word[..|word| - 1], guessed) + [if last in guessed then last else Blank]
  }

  lemma WordStatusExample()
    ensures WordStatus("apple", ['a', 'p']) == "app--"
  {
    var r := WordStatus("apple", ['a', 'p']);
    assert r[3] == Blank && r[4] == Blank;
  }

  /** With nothing guessed the display is all blanks. */
  lemma WordStatusNothingGuessed(word: string)
    ensures WordStatus(word, []) == Dashes(|word|)
  {
  }

  /**
   * `s` with every in-range position listed in `indices` overwritten by `c`;
   * indices outside `[0, |s|)` are ignored.
   */
  function ReplaceAt(s: string, indices: seq<int>, c: char): (r: string)
    ensures |r| == |s|
    ensures forall i {:trigger r[i]} :: 0 <= i < |s| ==> r[i] == (if i in indices then c else s[i])
    decreases |indices|
  {
    if |indices| == 0 then s
    else
      var s' := if 0 <= indices[0] < |s| then s[indices[0] := c] else s;
      ReplaceAt(s', indices[1..], c)
  }

  lemma ReplaceAtExample()
    ensures ReplaceAt("apple", [1, 3], 'x') == "axpxe"
  {
  }

  /** `sub` occurs in `s` starting at position `i`. */
  predicate MatchesAt(s: string, sub: string, i: int)
  {
    0 <= i && i + |sub| <= |s| && s[i..i + |sub|] == sub
  }

  /**
   * The lowest position at or after `start` where `sub` occurs in `s`, or -1
   * when there is none (the behaviour of Python's `str.find`).
   */
  function Find(s: string, sub: string, start: nat): (r: int)
    ensures r == -1 || (start <= r && MatchesAt(s, sub, r))
    ensures forall i :: start <= i && (r == -1 || i < r) ==> !MatchesAt(s, sub, i)
    decreases |s| - start
  {
    if start + |sub| > |s| then -1
    else if s[start..start + |sub|] == sub then start
    else Find(s, sub, start + 1)
  }

  /** Position `i` lies inside the span of one of the reported occurrences. */
  predicate Covered(r: seq<int>, sub: string, i: int)
  {
    exists k :: 0 <= k < |r| && r[k] <= i < r[k] + |sub|
  }

  /**
   * The occurrences of `sub` in `s` from `start` on, found left to right, each
   * search resuming just after the previous occurrence.
   */
  function FindAllFrom(s: string, sub: string, start: nat): (r: seq<int>)
    requires |sub| >= 1
    ensures forall k :: 0 <= k < |r| ==> start <= r[k] && MatchesAt(s, sub, r[k])
    ensures forall k :: 0 <= k < |r| - 1 ==> r[k] + |sub| <= r[k + 1]
    ensures forall i {:trigger Covered(r, sub, i)} :: start <= i && MatchesAt(s, sub, i) ==> Covered(r, sub, i)
    decreases |s| - start
  {
    var i := Find(s, sub, start);
    if i == -1 then []
    else
      var rest := FindAllFrom(s, sub, i + |sub|);
      PrependMatches(s, sub, start, i, rest);
      PrependApart(sub, i, rest);
      PrependCovers(s, sub, start, i, rest);
      [i] + rest
  }

  /** Prepending an occurrence at or after `start` keeps every reported position a match from `start` on. */
  lemma PrependMatches(s: string, sub: string, start: nat, i: int, rest: seq<int>)
    requires start <= i && MatchesAt(s, sub, i)
    requires forall k :: 0 <= k < |rest| ==> i <= rest[k] && MatchesAt(s, sub, rest[k])
    ensures forall k :: 0 <= k < |[i] + rest| ==> start <= ([i] + rest)[k] && MatchesAt(s, sub, ([i] + rest)[k])
  {
    var r := [i] + rest;
    forall k | 0 <= k < |r|
      ensures start <= r[k] && MatchesAt(s, sub, r[k])
    {
      if k > 0 {
        assert r[k] == rest[k - 1];
      }
    }
  }

  /** Prepending an occurrence that ends before the next one keeps the positions non-overlapping. */
  lemma PrependApart(sub: string, i: int, rest: seq<int>)
    requires |rest| > 0 ==> i + |sub| <= rest[0]
    requires forall k :: 0 <= k < |rest| - 1 ==> rest[k] + |sub| <= rest[k + 1]
    ensures forall k :: 0 <= k < |[i] + rest| - 1 ==> ([i] + rest)[k] + |sub| <= ([i] + rest)[k + 1]
  {
    var r := [i] + rest;
    forall k | 0 <= k < |r| - 1
      ensures r[k] + |sub| <= r[k + 1]
    {
      if k > 0 {
        assert r[k] == rest[k - 1] && r[k + 1] == rest[k];
      }
    }
  }

  /**
   * When nothing matches in `[start, i)`, prepending the occurrence at `i` to
   * a result covering every match from `i + |sub|` on covers every match from
   * `start` on.
   */
  lemma PrependCovers(s: string, sub: string, start: nat, i: int, rest: seq<int>)
    requires start <= i
    requires forall j :: start <= j < i ==> !MatchesAt(s, sub, j)
    requires forall j {:trigger Covered(rest, sub, j)} :: i + |sub| <= j && MatchesAt(s, sub, j) ==> Covered(rest, sub, j)
    ensures forall j {:trigger Covered([i] + rest, sub, j)} :: start <= j && MatchesAt(s, sub, j) ==> Covered([i] + rest, sub, j)
  {
    var r := [i] + rest;
    forall j | start <= j && MatchesAt(s, sub, j)
      ensures Covered(r, sub, j)
    {
      if j < i + |sub| {
        assert r[0] <= j < r[0] + |sub|;
      } else {
        assert Covered(rest, sub, j);
        var k :| 0 <= k < |rest| && rest[k] <= j < rest[k] + |sub|;
        assert r[k + 1] == rest[k];
      }
    }
  }

  /**
   * All start positions of `sub` in `s`, strictly increasing and
   * non-overlapping.  `sub` must be non-empty: on an empty substring the
   * search never advances.
   */
  function FindAll(s: string, sub: string): (r: seq<int>)
    requires |sub| >= 1
    ensures forall k :: 0 <= k < |r| ==> MatchesAt(s, sub, r[k])
    ensures forall k :: 0 <= k < |r| - 1 ==> r[k] + |sub| <= r[k + 1]
    ensures forall i {:trigger Covered(r, sub, i)} :: MatchesAt(s, sub, i) ==> Covered(r, sub, i)
  {
    FindAllFrom(s, sub, 0)
  }

  /** The reported occurrences are strictly increasing. */
  lemma {:induction false} FindAllIncreasing(s: string, sub: string)
    requires |sub| >= 1
    ensures forall k, m :: 0 <= k < m < |FindAll(s, sub)| ==> FindAll(s, sub)[k] < FindAll(s, sub)[m]
  {
    var r := FindAll(s, sub);
    forall k, m | 0 <= k < m < |r|
      ensures r[k] < r[m]
    {
      var j := k;
      while j < m
        invariant k <= j <= m
        invariant r[k] <= r[j] - (j - k)
      {
        j := j + 1;
      }
    }
  }

  /** For a one-character substring the occurrences are exactly the positions holding that character. */
  lemma FindAllSingleChar(s: string, c: char)
    ensures forall i :: i in FindAll(s, [c]) <==> 0 <= i < |s| && s[i] == c
  {
    var r := FindAll(s, [c]);
    forall i | 0 <= i < |s| && s[i] == c
      ensures i in r
    {
      assert s[i..i + 1] == [c];
      assert MatchesAt(s, [c], i);
      assert Covered(r, [c], i);
      var k :| 0 <= k < |r| && r[k] <= i < r[k] + 1;
    }
    forall i | i in r
      ensures 0 <= i < |s| && s[i] == c
    {
      var k :| 0 <= k < |r| && r[k] == i;
      assert MatchesAt(s, [c], r[k]);
      assert s[i..i + 1][0] == s[i];
    }
  }

  lemma FindAllExample()
    ensures FindAll("banana", "an") == [1, 3]
  {
    assert Find("banana", "an", 0) == 1 by {
      assert "banana"[0..2][0] == 'b';
      assert "banana"[1..3] == "an";
    }
    assert Find("banana", "an", 3) == 3 by {
      assert "banana"[3..5] == "an";
    }
    assert Find("banana", "an", 5) == -1;
    assert FindAllFrom("banana", "an", 5) == [];
    assert FindAllFrom("banana", "an", 3) == [3];
  }

  /**
   * Revealing `c` the way a correct guess does (find its occurrences in the
   * word, overwrite them in the mask) turns the display for `guessed` into the
   * display for `guessed + [c]`.
   */
  lemma RevealIsWordStatus(word: string, guessed: seq<char>, c: char)
    ensures ReplaceAt(WordStatus(word, guessed), FindAll(word, [c]), c) == WordStatus(word, guessed + [c])
  {
    var idx := FindAll(word, [c]);
    FindAllSingleChar(word, c);
    var lhs := ReplaceAt(WordStatus(word, guessed), idx, c);
    var rhs := WordStatus(word, guessed + [c]);
    forall i | 0 <= i < |word|
      ensures lhs[i] == rhs[i]
    {
      assert word[i] in guessed + [c] <==> word[i] in guessed || word[i] == c;
    }
  }
}
