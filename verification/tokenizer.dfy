/**
 The request tokenizer of the server: `parsing_request` turns a decoded request
 into the sentinel `''` (empty request) or the list of its whitespace-separated
 words, exactly as Python's `str.split()` with no separator does; the read loop
 then rejoins those words with single spaces. The separator-taking split that
 the mark-read command relies on (`ts1/ts2/.../tsN`) lives here as well.
 */
module Tokenizer {

  import opened Wrappers

  /** The characters for which Python's `str.isspace()` holds; `str.split()`
      with no separator splits on exactly these. */
  predicate IsSpace(c: char) {
    || c == ' ' || c == '\t' || c == '\n' || c == '\r'
    || c == '\U{0B}' || c == '\U{0C}'
    || ('\U{1C}' <= c <= '\U{1F}')
    || c == '\U{85}' || c == '\U{A0}' || c == '\U{1680}'
    || ('\U{2000}' <= c <= '\U{200A}')
    || c == '\U{2028}' || c == '\U{2029}' || c == '\U{202F}'
    || c == '\U{205F}' || c == '\U{3000}'
  }

  /** A word: a non-empty string with no whitespace in it. */
  predicate IsWord(w: string) {
    |w| > 0 && forall i :: 0 <= i < |w| ==> !IsSpace(w[i])
  }

  predicate AllSpace(s: string) {
    forall i :: 0 <= i < |s| ==> IsSpace(s[i])
  }

  /** Length of the longest prefix of `s` that holds no whitespace. */
  function WordLength(s: string): (n: nat)
    ensures n <= |s|
    ensures forall i :: 0 <= i < n ==> !IsSpace(s[i])
    ensures n < |s| ==> IsSpace(s[n])
  {
    if |s| == 0 || IsSpace(s[0]) then 0 else 1 + WordLength(s[1..])
  }

  /** `s.split()`: the maximal runs of non-whitespace characters, in order. */
  function Split(s: string): (r: seq<string>)
    ensures forall k :: 0 <= k < |r| ==> IsWord(r[k])
    decreases |s|
  {
    if |s| == 0 then []
    else if IsSpace(s[0]) then Split(s[1..])
    else
      var n := WordLength(s);
      [s[..n]] + Split(s[n..])
  }

  /** `sep.join(words)`. */
  function Join(words: seq<string>, sep: string): string {
    if |words| == 0 then ""
    else if |words| == 1 then words[0]
    else words[0] + sep + Join(words[1..], sep)
  }

  /** The words glued together with nothing between them. */
  function Concat(words: seq<string>): string {
    if |words| == 0 then "" else words[0] + Concat(words[1..])
  }

  /** `s` with every whitespace character removed. */
  function RemoveSpaces(s: string): string {
    if |s| == 0 then ""
    else (if IsSpace(s[0]) then "" else [s[0]]) + RemoveSpaces(s[1..])
  }

  /** What `parsing_request` returns: the empty-string sentinel, or a word list. */
  datatype Parsed = Sentinel | Tokens(words: seq<string>)

  /** `parsing_request`: an empty request gives the sentinel; any other request
      its words, whose concatenation is the request with whitespace removed. */
  function ParseRequest(request: string): (p: Parsed)
    ensures p.Sentinel? <==> |request| == 0
    ensures p.Tokens? ==> forall k :: 0 <= k < |p.words| ==> IsWord(p.words[k])
    ensures p.Tokens? ==> Concat(p.words) == RemoveSpaces(request)
    ensures p.Tokens? ==> (p.words == [] <==> AllSpace(request))
  {
    if |request| == 0 then Sentinel
    else
      SplitConcat(request);
      SplitEmptyIff(request);
      Tokens(Split(request))
  }

  /** The rejoin done by the read loop: only a non-sentinel parse is rejoined,
      and re-splitting the rejoined text gives back the same words. */
  function Rejoin(p: Parsed): (r: Option<string>)
    ensures r.Some? <==> p.Tokens?
    ensures p.Tokens? && (forall k :: 0 <= k < |p.words| ==> IsWord(p.words[k]))
            ==> Split(r.value) == p.words
  {
    match p
    case Sentinel => None
    case Tokens(words) =>
      SplitJoinOfWords(words);
      Some(Join(words, " "))
  }

  /** `s.split(sep)` for a one-character separator: the fields between
      separators, including empty ones; there is always at least one field. */
  function SplitOn(s: string, sep: char): (r: seq<string>)
    ensures |r| >= 1
    ensures forall k :: 0 <= k < |r| ==> sep !in r[k]
    decreases |s|
  {
    if |s| == 0 then [""]
    else
      var rest := SplitOn(s[1..], sep);
      if s[0] == sep then [""] + rest
      else [[s[0]] + rest[0]] + rest[1..]
  }

  // ---------------------------------------------------------------------
  // Lemmas

  /** A word followed by nothing or by whitespace is read as exactly one word. */
  lemma {:induction false} WordLengthOfWord(w: string, rest: string)
    requires IsWord(w)
    requires |rest| == 0 || IsSpace(rest[0])
    ensures WordLength(w + rest) == |w|
    decreases |w|
  {
    if |w| == 1 {
      assert (w + rest)[1..] == rest;
    } else {
      assert (w + rest)[1..] == w[1..] + rest;
      WordLengthOfWord(w[1..], rest);
    }
  }

  /** Round trip: splitting the single-space join of words gives the words back. */
  lemma {:induction false} SplitJoin(words: seq<string>)
    requires forall k :: 0 <= k < |words| ==> IsWord(words[k])
    ensures Split(Join(words, " ")) == words
    decreases |words|
  {
    if |words| == 0 {
    } else if |words| == 1 {
      var w := words[0];
      WordLengthOfWord(w, "");
      assert w + "" == w;
      assert w[..|w|] == w;
      assert w[|w|..] == "";
    } else {
      var w := words[0];
      var tail := Join(words[1..], " ");
      var s := w + " " + tail;
      assert s == w + (" " + tail);
      WordLengthOfWord(w, " " + tail);
      assert s[..|w|] == w;
      assert s[|w|..] == " " + tail;
      assert (" " + tail)[1..] == tail;
      SplitJoin(words[1..]);
      assert Split(s) == [w] + Split(" " + tail);
      assert words == [words[0]] + words[1..];
    }
  }

  /** `SplitJoin` for any word list, with its precondition as a hypothesis. */
  lemma SplitJoinOfWords(words: seq<string>)
    ensures (forall k :: 0 <= k < |words| ==> IsWord(words[k])) ==> Split(Join(words, " ")) == words
  {
    if forall k :: 0 <= k < |words| ==> IsWord(words[k]) {
      SplitJoin(words);
    }
  }

  /** Appending to a string does not change its first word when the word
      already ends inside the string, or when what is appended starts with
      whitespace (or is empty). */
  lemma {:induction false} WordLengthAppend(a: string, rest: string)
    requires WordLength(a) < |a| || |rest| == 0 || IsSpace(rest[0])
    ensures WordLength(a + rest) == WordLength(a)
    decreases |a|
  {
    if |a| == 0 {
      assert a + rest == rest;
    } else if !IsSpace(a[0]) {
      assert (a + rest)[1..] == a[1..] + rest;
      WordLengthAppend(a[1..], rest);
    }
  }

  /** A whitespace character always separates: the words of `a + [c] + b` are
      the words of `a` followed by the words of `b`. No word runs across `c`,
      and no word of `a` or `b` is cut. */
  lemma {:induction false} SplitAtSpace(a: string, c: char, b: string)
    requires IsSpace(c)
    ensures Split(a + [c] + b) == Split(a) + Split(b)
    decreases |a|
  {
    var s := a + [c] + b;
    if |a| == 0 {
      assert s == [c] + b;
      assert s[1..] == b;
    } else if IsSpace(a[0]) {
      assert s[1..] == a[1..] + [c] + b;
      SplitAtSpace(a[1..], c, b);
    } else {
      assert s == a + ([c] + b);
      WordLengthAppend(a, [c] + b);
      var n := WordLength(a);
      assert s[..n] == a[..n];
      assert s[n..] == a[n..] + [c] + b;
      SplitAtSpace(a[n..], c, b);
    }
  }

  /** A single word splits into itself: no word is ever cut apart. */
  lemma {:induction false} SplitWord(w: string)
    requires IsWord(w)
    ensures Split(w) == [w]
  {
    WordLengthOfWord(w, "");
    assert w + "" == w;
    assert w[..|w|] == w;
    assert w[|w|..] == "";
  }

  /** Whitespace removal distributes over concatenation. */
  lemma {:induction false} RemoveSpacesAppend(a: string, b: string)
    ensures RemoveSpaces(a + b) == RemoveSpaces(a) + RemoveSpaces(b)
    decreases |a|
  {
    if |a| == 0 {
      assert a + b == b;
    } else {
      assert (a + b)[1..] == a[1..] + b;
      RemoveSpacesAppend(a[1..], b);
    }
  }

  /** A string free of whitespace is its own whitespace removal. */
  lemma {:induction false} RemoveSpacesNoSpace(w: string)
    requires forall i :: 0 <= i < |w| ==> !IsSpace(w[i])
    ensures RemoveSpaces(w) == w
    decreases |w|
  {
    if |w| > 0 {
      RemoveSpacesNoSpace(w[1..]);
      assert w == [w[0]] + w[1..];
    }
  }

  /** The words of a request, glued together, are the request minus its whitespace. */
  lemma {:induction false} SplitConcat(s: string)
    ensures Concat(Split(s)) == RemoveSpaces(s)
    decreases |s|
  {
    if |s| == 0 {
    } else if IsSpace(s[0]) {
      SplitConcat(s[1..]);
    } else {
      var n := WordLength(s);
      assert s == s[..n] + s[n..];
      RemoveSpacesAppend(s[..n], s[n..]);
      RemoveSpacesNoSpace(s[..n]);
      SplitConcat(s[n..]);
      var r := [s[..n]] + Split(s[n..]);
      assert r[0] == s[..n] && r[1..] == Split(s[n..]);
    }
  }

  /** A string splits into no words exactly when it is all whitespace. */
  lemma {:induction false} SplitEmptyIff(s: string)
    ensures Split(s) == [] <==> AllSpace(s)
    decreases |s|
  {
    if |s| > 0 {
      if IsSpace(s[0]) {
        SplitEmptyIff(s[1..]);
        assert AllSpace(s) <==> AllSpace(s[1..]) by {
          if AllSpace(s[1..]) {
            forall i | 0 <= i < |s| ensures IsSpace(s[i]) {
              if i > 0 { assert s[i] == s[1..][i - 1]; }
            }
          }
          if AllSpace(s) {
            forall i | 0 <= i < |s[1..]| ensures IsSpace(s[1..][i]) {
              assert s[1..][i] == s[i + 1];
            }
          }
        }
      }
    }
  }

  /** A non-empty, all-whitespace request is not the sentinel: it parses to the
      empty word list, which passes the read loop's `!= ''` test. */
  lemma BlankRequestIsNotSentinel(s: string)
    requires |s| > 0 && AllSpace(s)
    ensures ParseRequest(s) == Tokens([])
    ensures Rejoin(ParseRequest(s)) == Some("")
  {
  }

  /** A non-empty request is cut at every whitespace character: its words are
      those on the left of the character followed by those on its right. */
  lemma ParseRequestAtSpace(a: string, c: char, b: string)
    requires IsSpace(c)
    ensures ParseRequest(a + [c] + b) == Tokens(Split(a) + Split(b))
  {
    SplitAtSpace(a, c, b);
  }

  /** A request that is one word parses to exactly that word. */
  lemma ParseRequestWord(w: string)
    requires IsWord(w)
    ensures ParseRequest(w) == Tokens([w])
  {
    SplitWord(w);
  }

  /** Split, rejoin, split again: the second split changes nothing. */
  lemma SplitRejoinIdempotent(s: string)
    ensures Split(Join(Split(s), " ")) == Split(s)
  {
    SplitJoin(Split(s));
  }

  /** Joining the separator-split fields back with the separator rebuilds the input. */
  lemma {:induction false} SplitOnJoin(s: string, sep: char)
    ensures Join(SplitOn(s, sep), [sep]) == s
    decreases |s|
  {
    if |s| > 0 {
      var rest := SplitOn(s[1..], sep);
      SplitOnJoin(s[1..], sep);
      if s[0] == sep {
        assert ([""] + rest)[1..] == rest;
      } else {
        var r := [[s[0]] + rest[0]] + rest[1..];
        assert r[1..] == rest[1..];
        if |rest| > 1 {
          assert Join(rest, [sep]) == rest[0] + [sep] + Join(rest[1..], [sep]);
        }
        assert s == [s[0]] + s[1..];
      }
    }
  }

  /** A string with no separator in it is a single field. */
  lemma {:induction false} SplitOnNoSeparator(s: string, sep: char)
    requires sep !in s
    ensures SplitOn(s, sep) == [s]
    decreases |s|
  {
    if |s| > 0 {
      assert s == [s[0]] + s[1..];
      SplitOnNoSeparator(s[1..], sep);
    }
  }
}
