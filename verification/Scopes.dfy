/** Space-delimited scope lists: the hand-written splitter against a recursive specification, and joining. */
module Scopes {

  predicate SpaceFree(s: string) {
    forall i :: 0 <= i < |s| ==> s[i] != ' '
  }

  predicate Word(s: string) {
    s != "" && SpaceFree(s)
  }

  /** strings.Join. */
  function Join(parts: seq<string>, sep: string): string {
    if parts == [] then ""
    else if |parts| == 1 then parts[0]
    else parts[0] + sep + Join(parts[1..], sep)
  }

  /** The length of the longest space-free prefix. */
  function WordEnd(s: string): (n: nat)
    ensures n <= |s| && SpaceFree(s[..n]) && (n < |s| ==> s[n] == ' ')
  {
    if s == "" || s[0] == ' ' then 0
    else
      var n := WordEnd(s[1..]);
      assert s[..n + 1] == [s[0]] + s[1..][..n];
      n + 1
  }

  /** The maximal space-free runs of `s`, in order. */
  function Split(s: string): seq<string>
    decreases |s|
  {
    if s == "" then []
    else if s[0] == ' ' then Split(s[1..])
    else [s[..WordEnd(s)]] + Split(s[WordEnd(s)..])
  }

  lemma {:induction false} PiecesAreWords(s: string)
    ensures forall w <- Split(s) :: Word(w)
    decreases |s|
  {
    if s == "" {
    } else if s[0] == ' ' {
      PiecesAreWords(s[1..]);
    } else {
      PiecesAreWords(s[WordEnd(s)..]);
    }
  }

  lemma {:induction false} WordEndOfWord(w: string, rest: string)
    requires SpaceFree(w) && (rest == "" || rest[0] == ' ')
    ensures WordEnd(w + rest) == |w|
    decreases |w|
  {
    if w == "" {
      assert w + rest == rest;
    } else {
      assert (w + rest)[1..] == w[1..] + rest;
      WordEndOfWord(w[1..], rest);
    }
  }

  /** A word followed by the end or by a space is the first piece. */
  lemma SplitAtWord(w: string, rest: string)
    requires Word(w) && (rest == "" || rest[0] == ' ')
    ensures Split(w + rest) == [w] + Split(rest)
  {
    WordEndOfWord(w, rest);
    assert (w + rest)[..|w|] == w && (w + rest)[|w|..] == rest;
  }

  /** Splitting inverts joining: any list of words survives the round trip. */
  lemma {:induction false} SplitInvertsJoin(words: seq<string>)
    requires forall w <- words :: Word(w)
    ensures Split(Join(words, " ")) == words
    decreases |words|
  {
    if |words| == 1 {
      SplitAtWord(words[0], "");
      assert words[0] + "" == words[0];
    } else if |words| > 1 {
      var rest := " " + Join(words[1..], " ");
      assert Join(words, " ") == words[0] + rest;
      SplitAtWord(words[0], rest);
      assert rest[1..] == Join(words[1..], " ");
      SplitInvertsJoin(words[1..]);
    }
  }

  /** Joining a split with single spaces normalises the text without changing how it splits. */
  lemma SplitJoinSplit(s: string)
    ensures Split(Join(Split(s), " ")) == Split(s)
  {
    PiecesAreWords(s);
    SplitInvertsJoin(Split(s));
  }

  lemma FirstWord(s: string) returns (word: string, after: string)
    requires s != "" && s[0] != ' '
    ensures s == word + after && Word(word) && (after == "" || after[0] == ' ')
  {
    word, after := s[..WordEnd(s)], s[WordEnd(s)..];
  }

  /** A space ends a piece, whatever is around it. */
  lemma {:induction false} SplitAtSpace(s: string, t: string)
    ensures Split(s + (" " + t)) == Split(s) + Split(t)
    decreases |s|
  {
    if s == "" {
      assert s + (" " + t) == " " + t && (" " + t)[1..] == t;
    } else if s[0] == ' ' {
      assert (s + (" " + t))[1..] == s[1..] + (" " + t);
      SplitAtSpace(s[1..], t);
    } else {
      var word, after := FirstWord(s);
      var rest := after + (" " + t);
      assert s + (" " + t) == word + rest && rest[0] == ' ';
      SplitAtWord(word, after);
      SplitAtWord(word, rest);
      SplitAtSpace(after, t);
      assert [word] + (Split(after) + Split(t)) == ([word] + Split(after)) + Split(t);
    }
  }

  /** The pieces of each text of a list. */
  function Pieces(parts: seq<string>): seq<string> {
    if parts == [] then [] else Split(parts[0]) + Pieces(parts[1..])
  }

  /** A joined list asks for the pieces of its members, whether these are words or not. */
  lemma {:induction false} SplitOfJoin(parts: seq<string>)
    ensures Split(Join(parts, " ")) == Pieces(parts)
    decreases |parts|
  {
    if |parts| == 1 {
      assert Pieces(parts[1..]) == [];
    } else if |parts| > 1 {
      SplitAtSpace(parts[0], Join(parts[1..], " "));
      assert Join(parts, " ") == parts[0] + (" " + Join(parts[1..], " "));
      SplitOfJoin(parts[1..]);
    }
  }

  /** Moving one finished word from what is to come to what is out. */
  lemma SplitFromWord(s: string, start: nat, end: nat, out: seq<string>)
    requires start < end <= |s| && SpaceFree(s[start..end]) && (end < |s| ==> s[end] == ' ')
    ensures out + Split(s[start..]) == (out + [s[start..end]]) + Split(s[end..])
  {
    var word, after := s[start..end], s[end..];
    assert s[start..] == word + after;
    SplitAtWord(word, after);
    assert out + ([word] + Split(after)) == (out + [word]) + Split(after);
  }

  lemma SplitFromSpace(s: string, i: nat)
    requires i < |s| && s[i] == ' '
    ensures Split(s[i..]) == Split(s[i + 1..])
  {
  }

  method SplitScopes(s: string) returns (out: seq<string>)
    ensures out == Split(s)
  {
    out := [];
    ghost var rest := Split(s);   // the pieces still to come
    var start := -1;
    var i := 0;
    assert s[0..] == s;
    while i <= |s|
      invariant 0 <= i <= |s| + 1 && -1 <= start < i
      invariant out + rest == Split(s)
      invariant start >= 0 ==> i <= |s| && SpaceFree(s[start..i]) && rest == Split(s[start..])
      invariant start < 0 && i <= |s| ==> rest == Split(s[i..])
      invariant i > |s| ==> rest == []
    {
      if i == |s| || s[i] == ' ' {
        if start >= 0 {
          SplitFromWord(s, start, i, out);
          out, rest := out + [s[start..i]], Split(s[i..]);
          start := -1;
        }
        if i < |s| {
          SplitFromSpace(s, i);
        }
      } else if start < 0 {
        start := i;
      } else {
        assert s[start..i + 1] == s[start..i] + [s[i]];
      }
      i := i + 1;
    }
  }
}
