/** The Stock Assistant's guess of the ticker a question is about
    (`ChatbotService.extract_ticker`, src/services/chatbot_service.py): the
    question is upper-cased and split on whitespace, and the first word
    that looks like a ticker and that the market-data lookup accepts is
    the answer. The lookup is the parameter `valid`. */
module Chatbot {
  import opened Common

  // ---------------------------------------------------------------------
  // Upper-casing and splitting

  /** The characters `str.split()` separates words on, those for which
      `str.isspace()` holds: tab to carriage return, the four information
      separators U+001C to U+001F, space, U+0085, no-break space, and the
      Unicode space separators and line and paragraph separators. */
  predicate IsSpace(c: char)
  {
    || '\t' <= c <= '\r'
    || '\U{1C}' <= c <= ' '
    || c == '\U{85}' || c == '\U{A0}' || c == '\U{1680}'
    || '\U{2000}' <= c <= '\U{200A}'
    || c == '\U{2028}' || c == '\U{2029}' || c == '\U{202F}' || c == '\U{205F}' || c == '\U{3000}'
  }

  function UpperChar(c: char): char
  {
    if 'a' <= c <= 'z' then (c as int - 32) as char else c
  }

  function Upper(s: string): (r: string)
    ensures |r| == |s|
  {
    seq(|s|, i requires 0 <= i < |s| => UpperChar(s[i]))
  }

  /** Upper-casing leaves no lower-case letter and keeps every whitespace
      character where it was. */
  lemma UpperEffect(s: string)
    ensures forall i :: 0 <= i < |s| ==> !('a' <= Upper(s)[i] <= 'z')
    ensures forall i :: 0 <= i < |s| ==> (IsSpace(Upper(s)[i]) <==> IsSpace(s[i]))
  {
  }

  /** The words of `s`, the word in progress being `word`. */
  function SplitFrom(s: string, word: string): seq<string>
    decreases |s|
  {
    if s == [] then (if word == [] then [] else [word])
    else if IsSpace(s[0]) then (if word == [] then [] else [word]) + SplitFrom(s[1..], [])
    else SplitFrom(s[1..], word + [s[0]])
  }

  /** `str.split()` with no argument: maximal runs of non-whitespace. */
  function Words(s: string): seq<string>
  {
    SplitFrom(s, [])
  }

  predicate NoSpace(w: string)
  {
    forall i :: 0 <= i < |w| ==> !IsSpace(w[i])
  }

  /** Every word is non-empty, holds no whitespace, and is made of
      characters of the input. */
  lemma {:induction false} SplitFromWords(s: string, word: string)
    requires NoSpace(word)
    decreases |s|
    ensures forall w :: w in SplitFrom(s, word) ==> w != [] && NoSpace(w)
    ensures forall w, c :: w in SplitFrom(s, word) && c in w ==> c in s || c in word
  {
    if s != [] {
      if IsSpace(s[0]) {
        SplitFromWords(s[1..], []);
      } else {
        SplitFromWords(s[1..], word + [s[0]]);
      }
      forall c | c in s[1..] ensures c in s {
        var j :| 0 <= j < |s[1..]| && s[1..][j] == c;
        assert s[j + 1] == c;
      }
    }
  }

  /** Words joined by single spaces. */
  function Joined(words: seq<string>): string
  {
    if words == [] then []
    else if |words| == 1 then words[0]
    else words[0] + " " + Joined(words[1..])
  }

  /** A run of non-whitespace is taken into the word in progress. */
  lemma {:induction false} SplitFromRun(w: string, rest: string, word: string)
    requires NoSpace(w)
    decreases |w|
    ensures SplitFrom(w + rest, word) == SplitFrom(rest, word + w)
  {
    if w != [] {
      assert (w + rest)[0] == w[0] && (w + rest)[1..] == w[1..] + rest;
      assert !IsSpace(w[0]);
      assert SplitFrom(w + rest, word) == SplitFrom(w[1..] + rest, word + [w[0]]);
      SplitFromRun(w[1..], rest, word + [w[0]]);
      assert word + [w[0]] + w[1..] == word + w;
    } else {
      assert w + rest == rest && word + w == word;
    }
  }

  /** Splitting undoes joining: non-empty words without whitespace, joined
      by spaces, split back into themselves. */
  lemma {:induction false} WordsOfJoined(words: seq<string>)
    requires forall k :: 0 <= k < |words| ==> words[k] != [] && NoSpace(words[k])
    ensures Words(Joined(words)) == words
  {
    if |words| == 1 {
      SplitFromRun(words[0], [], []);
      assert words[0] + [] == words[0] && [] + words[0] == words[0];
    } else if |words| > 1 {
      var rest := " " + Joined(words[1..]);
      assert Joined(words) == words[0] + rest;
      SplitFromRun(words[0], rest, []);
      assert [] + words[0] == words[0];
      assert rest[0] == ' ' && rest[1..] == Joined(words[1..]);
      WordsOfJoined(words[1..]);
      assert SplitFrom(rest, words[0]) == [words[0]] + Words(Joined(words[1..]));
    }
  }

  // ---------------------------------------------------------------------
  // Picking the ticker

  const StopWords: seq<string> := ["A", "I", "THE", "AND", "OR", "FOR", "WHAT", "HOW", "WHY"]

  predicate IsLetter(c: char)
  {
    'A' <= c <= 'Z' || 'a' <= c <= 'z'
  }

  /** `str.isalpha()`: non-empty and all letters. */
  predicate IsAlpha(w: string)
  {
    w != [] && forall i :: 0 <= i < |w| ==> IsLetter(w[i])
  }

  /** A word that looks like a ticker: alphabetic, at most five
      characters, and not one of the stop words. */
  predicate LooksLikeTicker(w: string)
  {
    IsAlpha(w) && |w| <= 5 && w !in StopWords
  }

  /** The first word that looks like a ticker and passes `valid`. */
  function FirstTicker(words: seq<string>, valid: string -> bool): Option<string>
  {
    if words == [] then None
    else if LooksLikeTicker(words[0]) && valid(words[0]) then Some(words[0])
    else FirstTicker(words[1..], valid)
  }

  /** The answer is the first qualifying word: it qualifies and no earlier
      word does; there is no answer exactly when no word qualifies. */
  lemma {:induction false} FirstTickerIsFirst(words: seq<string>, valid: string -> bool)
    ensures FirstTicker(words, valid).None? <==> forall k :: 0 <= k < |words| ==> !(LooksLikeTicker(words[k]) && valid(words[k]))
    ensures FirstTicker(words, valid).Some? ==>
      exists i :: 0 <= i < |words| && words[i] == FirstTicker(words, valid).value
        && LooksLikeTicker(words[i]) && valid(words[i])
        && forall k :: 0 <= k < i ==> !(LooksLikeTicker(words[k]) && valid(words[k]))
  {
    if words != [] {
      FirstTickerIsFirst(words[1..], valid);
      assert forall k :: 1 <= k < |words| ==> words[k] == words[1..][k - 1];
      if !(LooksLikeTicker(words[0]) && valid(words[0])) && FirstTicker(words, valid).Some? {
        var i :| 0 <= i < |words[1..]| && words[1..][i] == FirstTicker(words, valid).value
          && LooksLikeTicker(words[1..][i]) && valid(words[1..][i])
          && forall k :: 0 <= k < i ==> !(LooksLikeTicker(words[1..][k]) && valid(words[1..][k]));
        assert words[i + 1] == words[1..][i];
        forall k | 0 <= k < i + 1 ensures !(LooksLikeTicker(words[k]) && valid(words[k])) {
          if k > 0 {
            assert words[k] == words[1..][k - 1];
          }
        }
      }
    }
  }

  /** `extract_ticker(prompt)`: the answer is one to five upper-case
      letters, is not a stop word, and passes the lookup. */
  function ExtractTicker(prompt: string, valid: string -> bool): (r: Option<string>)
    ensures r.Some? ==>
      && 1 <= |r.value| <= 5 && r.value !in StopWords && valid(r.value)
      && forall i :: 0 <= i < |r.value| ==> 'A' <= r.value[i] <= 'Z'
  {
    TickerShape(prompt, valid);
    FirstTicker(Words(Upper(prompt)), valid)
  }

  lemma TickerShape(prompt: string, valid: string -> bool)
    ensures FirstTicker(Words(Upper(prompt)), valid).Some? ==>
      var t := FirstTicker(Words(Upper(prompt)), valid).value;
      && 1 <= |t| <= 5 && t !in StopWords && valid(t)
      && forall i :: 0 <= i < |t| ==> 'A' <= t[i] <= 'Z'
  {
    var up := Upper(prompt);
    UpperEffect(prompt);
    SplitFromWords(up, []);
    FirstTickerIsFirst(Words(up), valid);
    if FirstTicker(Words(up), valid).Some? {
      var t := FirstTicker(Words(up), valid).value;
      assert t in Words(up);
      forall i | 0 <= i < |t| ensures 'A' <= t[i] <= 'Z' {
        assert t[i] in t;
        var j :| 0 <= j < |up| && up[j] == t[i];
      }
    }
  }

  /** A question whose words, in order, are `words` yields the first of
      them that looks like a ticker and passes the lookup. */
  lemma ExtractFromWords(words: seq<string>, valid: string -> bool)
    requires forall k :: 0 <= k < |words| ==> words[k] != [] && NoSpace(words[k]) && Upper(words[k]) == words[k]
    ensures ExtractTicker(Joined(words), valid) == FirstTicker(words, valid)
  {
    UpperJoined(words);
    WordsOfJoined(words);
  }

  lemma {:induction false} UpperJoined(words: seq<string>)
    requires forall k :: 0 <= k < |words| ==> Upper(words[k]) == words[k]
    ensures Upper(Joined(words)) == Joined(words)
  {
    if |words| > 1 {
      UpperJoined(words[1..]);
      var s := Joined(words);
      assert s == words[0] + " " + Joined(words[1..]);
      forall i | 0 <= i < |s| ensures UpperChar(s[i]) == s[i] {
        if i < |words[0]| {
          assert s[i] == words[0][i] && Upper(words[0])[i] == UpperChar(words[0][i]);
        } else if i > |words[0]| {
          var tail := Joined(words[1..]);
          assert s[i] == tail[i - |words[0]| - 1] && Upper(tail)[i - |words[0]| - 1] == UpperChar(tail[i - |words[0]| - 1]);
        }
      }
    }
  }
}
