/**
 * Derivation of a translation key from selected text (Util.getTranslationId,
 * identical copy in LocalizeAction). The source is one chain of string passes:
 *
 *   upper-case  ->  [^A-Za-z] to '_'  ->  one "__" to "_" pass
 *               ->  strip leading '_'  ->  strip trailing '_'
 *
 * Each pass is a function below and TranslationId composes them. Upper-casing
 * is modelled for ASCII only.
 */
module TranslationIds {

  /** A character of the class `[A-Za-z]`. */
  predicate IsLetter(c: char) {
    'A' <= c <= 'Z' || 'a' <= c <= 'z'
  }

  predicate IsUpperLetter(c: char) {
    'A' <= c <= 'Z'
  }

  /** A character a derived key may contain. */
  predicate IsKeyChar(c: char) {
    IsUpperLetter(c) || c == '_'
  }

  predicate AllKeyChars(s: string) {
    forall i :: 0 <= i < |s| ==> IsKeyChar(s[i])
  }

  predicate AllLetters(s: string) {
    forall i :: 0 <= i < |s| ==> IsLetter(s[i])
  }

  predicate NoLetters(s: string) {
    forall i :: 0 <= i < |s| ==> !IsLetter(s[i])
  }

  /** Starts and ends with a letter. */
  predicate LetterBounded(s: string) {
    s != [] && IsLetter(s[0]) && IsLetter(s[|s| - 1])
  }

  function Underscores(n: nat): string
  {
    seq(n, _ => '_')
  }

  /** The letters of `s`, in order: the part of the text every pass keeps. */
  function Letters(s: string): string
  {
    if s == [] then []
    else (if IsLetter(s[0]) then [s[0]] else []) + Letters(s[1..])
  }

  // ---------------------------------------------------------------------------
  // The passes

  /** ASCII upper-casing of one character; every other character is kept. */
  function UpperChar(c: char): (u: char)
    ensures IsLetter(u) <==> IsLetter(c)
    ensures IsLetter(c) ==> IsUpperLetter(u)
    ensures !('a' <= c <= 'z') ==> u == c
    ensures 'a' <= c <= 'z' ==> u as int - 'A' as int == c as int - 'a' as int
  {
    if 'a' <= c <= 'z' then (c as int - 32) as char else c
  }

  /** `text.toUpperCase()`, restricted to ASCII case mapping. */
  function ToUpperCase(s: string): string
  {
    seq(|s|, i requires 0 <= i < |s| => UpperChar(s[i]))
  }

  /** `replaceAll("[^A-Za-z]", "_")`. */
  function ReplaceNonLetters(s: string): string
  {
    seq(|s|, i requires 0 <= i < |s| => if IsLetter(s[i]) then s[i] else '_')
  }

  /** `replaceAll("__", "_")`: a single left-to-right pass that rewrites each
      non-overlapping pair of underscores into one underscore. The rewritten
      text is not scanned again, so runs longer than two survive shortened. */
  function ReplacePairs(s: string): string
  {
    if |s| >= 2 && s[0] == '_' && s[1] == '_' then "_" + ReplacePairs(s[2..])
    else if s == [] then []
    else [s[0]] + ReplacePairs(s[1..])
  }

  /** `replaceAll("^_+", "")`: drops every underscore at the start. */
  function StripLeading(s: string): (r: string)
    ensures r == [] || r[0] != '_'
  {
    if s != [] && s[0] == '_' then StripLeading(s[1..]) else s
  }

  /** `replaceAll("_+$", "")`: drops every underscore at the end. */
  function StripTrailing(s: string): (r: string)
    ensures r == [] || r[|r| - 1] != '_'
  {
    if s != [] && s[|s| - 1] == '_' then StripTrailing(s[..|s| - 1]) else s
  }

  /** The text after the first two passes: upper-cased, separators as '_'. */
  function Separated(text: string): string
  {
    ReplaceNonLetters(ToUpperCase(text))
  }

  /** The key the plugin derives from a selected text. */
  function TranslationId(text: string): string
  {
    StripTrailing(StripLeading(ReplacePairs(Separated(text))))
  }

  // ---------------------------------------------------------------------------
  // Facts about the passes

  lemma {:induction false} LettersAppend(a: string, b: string)
    ensures Letters(a + b) == Letters(a) + Letters(b)
  {
    if a != [] {
      assert (a + b)[0] == a[0] && (a + b)[1..] == a[1..] + b;
      LettersAppend(a[1..], b);
    } else {
      assert a + b == b;
    }
  }

  lemma {:induction false} LettersUnderscores(n: nat)
    ensures Letters(Underscores(n)) == []
  {
    if n > 0 {
      assert Underscores(n)[1..] == Underscores(n - 1);
      LettersUnderscores(n - 1);
    }
  }

  lemma {:induction false} NoLettersLetters(s: string)
    requires NoLetters(s)
    ensures Letters(s) == []
  {
    if s != [] {
      NoLettersLetters(s[1..]);
    }
  }

  /** Upper-casing commutes with taking the letters. */
  lemma {:induction false} LettersToUpperCase(s: string)
    ensures Letters(ToUpperCase(s)) == ToUpperCase(Letters(s))
  {
    if s != [] {
      var t := ToUpperCase(s);
      assert t == [UpperChar(s[0])] + ToUpperCase(s[1..]);
      LettersAppend([UpperChar(s[0])], ToUpperCase(s[1..]));
      LettersToUpperCase(s[1..]);
      var head := if IsLetter(s[0]) then [s[0]] else [];
      assert Letters(s) == head + Letters(s[1..]);
      assert ToUpperCase(head + Letters(s[1..])) == ToUpperCase(head) + ToUpperCase(Letters(s[1..]));
    }
  }

  lemma {:induction false} LettersReplaceNonLetters(s: string)
    ensures Letters(ReplaceNonLetters(s)) == Letters(s)
  {
    if s != [] {
      assert ReplaceNonLetters(s)[1..] == ReplaceNonLetters(s[1..]);
      LettersReplaceNonLetters(s[1..]);
    }
  }

  lemma {:induction false} LettersReplacePairs(s: string)
    ensures Letters(ReplacePairs(s)) == Letters(s)
  {
    if |s| >= 2 && s[0] == '_' && s[1] == '_' {
      LettersReplacePairs(s[2..]);
      assert Letters(s) == Letters(s[1..]);
      assert Letters(s[1..]) == Letters(s[2..]);
      LettersAppend("_", ReplacePairs(s[2..]));
    } else if s != [] {
      LettersReplacePairs(s[1..]);
      LettersAppend([s[0]], ReplacePairs(s[1..]));
    }
  }

  lemma {:induction false} KeyCharsReplacePairs(s: string)
    requires AllKeyChars(s)
    ensures AllKeyChars(ReplacePairs(s))
  {
    if |s| >= 2 && s[0] == '_' && s[1] == '_' {
      KeyCharsReplacePairs(s[2..]);
    } else if s != [] {
      KeyCharsReplacePairs(s[1..]);
    }
  }

  lemma AllKeyCharsSplit(a: string, b: string)
    requires AllKeyChars(a + b)
    ensures AllKeyChars(a) && AllKeyChars(b)
  {
    assert forall i :: 0 <= i < |a| ==> a[i] == (a + b)[i];
    assert forall i :: 0 <= i < |b| ==> b[i] == (a + b)[|a| + i];
  }

  /** The first two passes work character by character. */
  lemma SeparatedAppend(a: string, b: string)
    ensures Separated(a + b) == Separated(a) + Separated(b)
  {
  }

  lemma SeparatedWord(w: string)
    requires AllLetters(w)
    ensures Separated(w) == ToUpperCase(w) && '_' !in Separated(w)
  {
  }

  lemma SeparatedSeparator(sep: string)
    requires NoLetters(sep)
    ensures Separated(sep) == Underscores(|sep|)
  {
  }

  /** The pair rewrite never pairs across a boundary unless an underscore
      sits on each side of it. */
  lemma {:induction false} ReplacePairsAppend(x: string, y: string)
    requires x == [] || x[|x| - 1] != '_' || y == [] || y[0] != '_'
    ensures ReplacePairs(x + y) == ReplacePairs(x) + ReplacePairs(y)
    decreases |x|, 1
  {
    if x == [] {
      assert x + y == y;
    } else if |x| >= 2 && x[0] == '_' && x[1] == '_' {
      ReplacePairsAppendAtPair(x, y);
    } else {
      ReplacePairsAppendAtSingle(x, y);
    }
  }

  /** ReplacePairsAppend for a text that starts with a pair. */
  lemma {:induction false} ReplacePairsAppendAtPair(x: string, y: string)
    requires |x| >= 2 && x[0] == '_' && x[1] == '_'
    requires x[|x| - 1] != '_' || y == [] || y[0] != '_'
    ensures ReplacePairs(x + y) == ReplacePairs(x) + ReplacePairs(y)
    decreases |x|, 0
  {
    var s := x + y;
    var t := x[2..];
    assert t == [] || t[|t| - 1] == x[|x| - 1];
    ReplacePairsAppend(t, y);
    assert s[0] == '_' && s[1] == '_' && s[2..] == t + y;
  }

  /** ReplacePairsAppend for a text that starts with a character that does
      not begin a pair. */
  lemma {:induction false} ReplacePairsAppendAtSingle(x: string, y: string)
    requires x != [] && !(|x| >= 2 && x[0] == '_' && x[1] == '_')
    requires x[|x| - 1] != '_' || y == [] || y[0] != '_'
    ensures ReplacePairs(x + y) == ReplacePairs(x) + ReplacePairs(y)
    decreases |x|, 0
  {
    var s := x + y;
    var t := x[1..];
    assert t == [] || t[|t| - 1] == x[|x| - 1];
    ReplacePairsAppend(t, y);
    assert s[1..] == t + y;
    NoPairAcross(x, y);
    ReplacePairsAtSingle(s);
    ReplacePairsAtSingle(x);
  }

  /** A text that does not start with a pair keeps not doing so when more
      text that cannot complete a pair is appended. */
  lemma NoPairAcross(x: string, y: string)
    requires x != [] && !(|x| >= 2 && x[0] == '_' && x[1] == '_')
    requires x[|x| - 1] != '_' || y == [] || y[0] != '_'
    ensures (x + y)[0] == x[0]
    ensures !(|x + y| >= 2 && (x + y)[0] == '_' && (x + y)[1] == '_')
  {
    if |x| == 1 && y != [] {
      assert (x + y)[1] == y[0];
    } else if |x| >= 2 {
      assert (x + y)[1] == x[1];
    }
  }

  /** One unfolding of the pair rewrite at a character that does not start a
      pair. */
  lemma ReplacePairsAtSingle(s: string)
    requires s != [] && !(|s| >= 2 && s[0] == '_' && s[1] == '_')
    ensures ReplacePairs(s) == [s[0]] + ReplacePairs(s[1..])
  {
  }

  /** A run of n underscores becomes ceil(n/2) underscores. */
  lemma {:induction false} ReplacePairsUnderscores(n: nat)
    ensures ReplacePairs(Underscores(n)) == Underscores((n + 1) / 2)
  {
    if n >= 2 {
      assert Underscores(n)[2..] == Underscores(n - 2);
      ReplacePairsUnderscores(n - 2);
      assert Underscores((n + 1) / 2) == "_" + Underscores((n - 1) / 2);
    } else if n == 1 {
      assert Underscores(n)[1..] == [];
    }
  }

  /** Text without underscores passes the pair rewrite unchanged. */
  lemma {:induction false} ReplacePairsNoUnderscore(x: string)
    requires '_' !in x
    ensures ReplacePairs(x) == x
  {
    if x != [] {
      assert '_' !in x[1..];
      ReplacePairsNoUnderscore(x[1..]);
    }
  }

  /** The pair rewrite keeps a first character, and a last character other
      than '_'. */
  lemma ReplacePairsEnds(s: string)
    requires s != []
    ensures ReplacePairs(s) != [] && ReplacePairs(s)[0] == s[0]
    ensures s[|s| - 1] != '_' ==> ReplacePairs(s)[|ReplacePairs(s)| - 1] == s[|s| - 1]
  {
    var last := s[|s| - 1];
    if last != '_' {
      assert s == s[..|s| - 1] + [last];
      ReplacePairsAppend(s[..|s| - 1], [last]);
      assert ReplacePairs([last]) == [last];
    }
  }

  /** The front strip removes a run of underscores and nothing else. */
  lemma {:induction false} StripLeadingShape(s: string)
    ensures |StripLeading(s)| <= |s|
    ensures s == Underscores(|s| - |StripLeading(s)|) + StripLeading(s)
  {
    if s != [] && s[0] == '_' {
      StripLeadingShape(s[1..]);
      var m := |s| - 1 - |StripLeading(s)|;
      assert Underscores(m + 1) == "_" + Underscores(m);
      assert s == "_" + s[1..];
    } else {
      assert Underscores(0) + s == s;
    }
  }

  /** The back strip removes a run of underscores and nothing else. */
  lemma {:induction false} StripTrailingShape(s: string)
    ensures |StripTrailing(s)| <= |s|
    ensures s == StripTrailing(s) + Underscores(|s| - |StripTrailing(s)|)
  {
    if s != [] && s[|s| - 1] == '_' {
      StripTrailingShape(s[..|s| - 1]);
      var m := |s| - 1 - |StripTrailing(s)|;
      assert Underscores(m + 1) == Underscores(m) + "_";
      assert s == s[..|s| - 1] + "_";
    } else {
      assert s + Underscores(0) == s;
    }
  }

  lemma {:induction false} StripLeadingUnderscores(n: nat, x: string)
    ensures StripLeading(Underscores(n) + x) == StripLeading(x)
  {
    if n > 0 {
      assert (Underscores(n) + x)[1..] == Underscores(n - 1) + x;
      StripLeadingUnderscores(n - 1, x);
    } else {
      assert Underscores(n) + x == x;
    }
  }

  lemma {:induction false} StripTrailingUnderscores(x: string, n: nat)
    ensures StripTrailing(x + Underscores(n)) == StripTrailing(x)
  {
    if n > 0 {
      assert (x + Underscores(n))[..|x| + n - 1] == x + Underscores(n - 1);
      StripTrailingUnderscores(x, n - 1);
    } else {
      assert x + Underscores(n) == x;
    }
  }

  /** Stripping at the front only reaches the first non-underscore. */
  lemma {:induction false} StripLeadingAppend(a: string, b: string)
    requires StripLeading(a) != []
    ensures StripLeading(a + b) == StripLeading(a) + b
  {
    assert a != [];
    assert (a + b)[0] == a[0] && (a + b)[1..] == a[1..] + b;
    if a[0] == '_' {
      StripLeadingAppend(a[1..], b);
    }
  }

  /** Stripping at the back only reaches the last non-underscore. */
  lemma {:induction false} StripTrailingAppend(a: string, b: string)
    requires StripTrailing(b) != []
    ensures StripTrailing(a + b) == a + StripTrailing(b)
  {
    assert b != [];
    var n := |a + b|;
    assert (a + b)[n - 1] == b[|b| - 1] && (a + b)[..n - 1] == a + b[..|b| - 1];
    if b[|b| - 1] == '_' {
      StripTrailingAppend(a, b[..|b| - 1]);
    }
  }

  // ---------------------------------------------------------------------------
  // Properties of the derived key

  /** Every character of a key is an upper-case ASCII letter or '_'. */
  lemma TranslationIdAlphabet(text: string)
    ensures AllKeyChars(TranslationId(text))
  {
    var separated := Separated(text);
    KeyCharsReplacePairs(separated);
    var paired := ReplacePairs(separated);
    var leading := StripLeading(paired);
    StripLeadingShape(paired);
    AllKeyCharsSplit(Underscores(|paired| - |leading|), leading);
    var trailing := StripTrailing(leading);
    StripTrailingShape(leading);
    AllKeyCharsSplit(trailing, Underscores(|leading| - |trailing|));
  }

  /** A key never starts or ends with '_'. */
  lemma TranslationIdEdges(text: string)
    ensures var id := TranslationId(text);
      id == [] || (id[0] != '_' && id[|id| - 1] != '_')
  {
    var leading := StripLeading(ReplacePairs(Separated(text)));
    var id := StripTrailing(leading);
    StripTrailingShape(leading);
    if id != [] {
      assert id[0] == leading[0];
    }
  }

  /** The letters of the key are the letters of the text, upper-cased, in order. */
  lemma TranslationIdLetters(text: string)
    ensures Letters(TranslationId(text)) == ToUpperCase(Letters(text))
  {
    var upper := ToUpperCase(text);
    LettersToUpperCase(text);
    var separated := ReplaceNonLetters(upper);
    LettersReplaceNonLetters(upper);
    var paired := ReplacePairs(separated);
    LettersReplacePairs(separated);
    LettersStrip(paired);
  }

  /** Stripping the underscores at both ends loses no letter. */
  lemma LettersStrip(s: string)
    ensures Letters(StripTrailing(StripLeading(s))) == Letters(s)
  {
    var leading := StripLeading(s);
    StripLeadingShape(s);
    LettersAppend(Underscores(|s| - |leading|), leading);
    LettersUnderscores(|s| - |leading|);
    var trailing := StripTrailing(leading);
    StripTrailingShape(leading);
    LettersAppend(trailing, Underscores(|leading| - |trailing|));
    LettersUnderscores(|leading| - |trailing|);
  }

  /** A text without letters yields the empty key. */
  lemma TranslationIdNoLetters(text: string)
    requires NoLetters(text)
    ensures TranslationId(text) == ""
  {
    TranslationIdLetters(text);
    NoLettersLetters(text);
    TranslationIdEdges(text);
    TranslationIdAlphabet(text);
  }

  /** A word of letters is its own key, upper-cased. */
  lemma TranslationIdWord(w: string)
    requires AllLetters(w)
    ensures TranslationId(w) == ToUpperCase(w)
  {
    SeparatedWord(w);
    ReplacePairsNoUnderscore(Separated(w));
    if w != [] {
      assert StripLeading(ToUpperCase(w)) == ToUpperCase(w);
    }
  }

  /** Separators before the first letter and after the last are dropped. */
  lemma TranslationIdTrim(pre: string, t: string, post: string)
    requires NoLetters(pre) && NoLetters(post) && LetterBounded(t)
    ensures TranslationId(pre + t + post) == TranslationId(t)
  {
    var T := Separated(t);
    SeparatedAppend(pre + t, post);
    SeparatedAppend(pre, t);
    SeparatedSeparator(pre);
    SeparatedSeparator(post);
    ReplacePairsAppend(Underscores(|pre|) + T, Underscores(|post|));
    ReplacePairsAppend(Underscores(|pre|), T);
    ReplacePairsUnderscores(|pre|);
    ReplacePairsUnderscores(|post|);
    var A := ReplacePairs(T);
    ReplacePairsEnds(T);
    assert ReplacePairs(Separated(pre + t + post))
        == Underscores((|pre| + 1) / 2) + A + Underscores((|post| + 1) / 2);
    assert StripLeading(A) == A;
    StripLeadingUnderscores((|pre| + 1) / 2, A);
    StripLeadingAppend(Underscores((|pre| + 1) / 2) + A, Underscores((|post| + 1) / 2));
    StripTrailingUnderscores(A, (|post| + 1) / 2);
  }

  /** The first three passes on a text with a run of separators in it. */
  lemma ReplacePairsJoin(u: string, sep: string, v: string)
    requires u != [] && IsLetter(u[|u| - 1])
    requires v != [] && IsLetter(v[0])
    requires NoLetters(sep)
    ensures ReplacePairs(Separated(u + sep + v))
         == ReplacePairs(Separated(u)) + Underscores((|sep| + 1) / 2) + ReplacePairs(Separated(v))
  {
    var U, V := Separated(u), Separated(v);
    SeparatedAppend(u + sep, v);
    SeparatedAppend(u, sep);
    SeparatedSeparator(sep);
    ReplacePairsAppend(U + Underscores(|sep|), V);
    ReplacePairsAppend(U, Underscores(|sep|));
    ReplacePairsUnderscores(|sep|);
  }

  /** Stripping at the front keeps a last character other than '_'. */
  lemma StripLeadingKeepsLast(a: string)
    requires a != [] && a[|a| - 1] != '_'
    ensures StripLeading(a) != [] && StripLeading(a)[|StripLeading(a)| - 1] == a[|a| - 1]
  {
    var l := StripLeading(a);
    var m := |a| - |l|;
    StripLeadingShape(a);
    assert a[|a| - 1] == (Underscores(m) + l)[m + |l| - 1];
  }

  /** A text that starts with a character other than '_' is not emptied by
      either strip, and the front strip leaves it alone. */
  lemma StripsKeepFirst(b: string)
    requires b != [] && b[0] != '_'
    ensures StripTrailing(b) != [] && StripLeading(b) == b
  {
    var r := StripTrailing(b);
    StripTrailingShape(b);
  }

  lemma StripLeadingJoin(a: string, u: string, b: string)
    requires StripLeading(a) != []
    ensures StripLeading(a + u + b) == StripLeading(a) + u + b
  {
    assert a + u + b == a + (u + b);
    StripLeadingAppend(a, u + b);
    assert StripLeading(a) + (u + b) == StripLeading(a) + u + b;
  }

  lemma StripTrailingJoin(a: string, u: string, b: string)
    requires StripTrailing(b) != []
    ensures StripTrailing(a + u + b) == a + u + StripTrailing(b)
  {
    StripTrailingAppend(a + u, b);
  }

  /** The two strips on a text with letters either side of a run of '_'. */
  lemma StripJoin(a: string, k: nat, b: string)
    requires a != [] && a[|a| - 1] != '_'
    requires b != [] && b[0] != '_'
    ensures StripTrailing(StripLeading(a + Underscores(k) + b))
         == StripTrailing(StripLeading(a)) + Underscores(k) + StripTrailing(StripLeading(b))
  {
    var l := StripLeading(a);
    StripLeadingKeepsLast(a);
    StripsKeepFirst(b);
    StripLeadingJoin(a, Underscores(k), b);
    StripTrailingJoin(l, Underscores(k), b);
    assert StripTrailing(l) == l;
  }

  /** The key of a text whose words are joined by a run of separators: the
      two keys joined by ceil(n/2) underscores for a run of n, since the pair
      rewrite is a single pass. */
  lemma TranslationIdJoin(u: string, sep: string, v: string)
    requires u != [] && IsLetter(u[|u| - 1])
    requires v != [] && IsLetter(v[0])
    requires NoLetters(sep)
    ensures TranslationId(u + sep + v)
         == TranslationId(u) + Underscores((|sep| + 1) / 2) + TranslationId(v)
  {
    ReplacePairsJoin(u, sep, v);
    var U, V := Separated(u), Separated(v);
    ReplacePairsEnds(U);
    ReplacePairsEnds(V);
    StripJoin(ReplacePairs(U), (|sep| + 1) / 2, ReplacePairs(V));
  }

  /** Two words joined by a run of n separators. */
  lemma TranslationIdTwoWords(u: string, sep: string, v: string)
    requires u != [] && AllLetters(u) && v != [] && AllLetters(v) && NoLetters(sep)
    ensures TranslationId(u + sep + v)
         == ToUpperCase(u) + Underscores((|sep| + 1) / 2) + ToUpperCase(v)
  {
    TranslationIdJoin(u, sep, v);
    TranslationIdWord(u);
    TranslationIdWord(v);
  }

  /** Three words joined by two runs of separators. */
  lemma TranslationIdThreeWords(u: string, sep1: string, v: string, sep2: string, w: string)
    requires u != [] && AllLetters(u) && v != [] && AllLetters(v) && w != [] && AllLetters(w)
    requires NoLetters(sep1) && NoLetters(sep2)
    ensures TranslationId(u + sep1 + (v + sep2 + w))
         == ToUpperCase(u) + Underscores((|sep1| + 1) / 2)
            + (ToUpperCase(v) + Underscores((|sep2| + 1) / 2) + ToUpperCase(w))
  {
    var tail := v + sep2 + w;
    TranslationIdTwoWords(v, sep2, w);
    assert tail[0] == v[0];
    TranslationIdJoin(u, sep1, tail);
    TranslationIdWord(u);
  }

  /** The example from the plugin's unit test. */
  lemma TranslationIdExample()
    ensures TranslationId(".foo-bar. apple.") == "FOO_BAR_APPLE"
  {
    var inner := "foo" + "-" + ("bar" + ". " + "apple");
    ExampleWords("foo", "-", "bar", ". ", "apple");
    assert ".foo-bar. apple." == "." + inner + ".";
    assert LetterBounded(inner);
    TranslationIdTrim(".", inner, ".");
  }

  /** The words of the unit test's text and the separators between them. */
  lemma ExampleWords(foo: string, dash: string, bar: string, dots: string, apple: string)
    requires foo == "foo" && dash == "-" && bar == "bar" && dots == ". " && apple == "apple"
    ensures TranslationId(foo + dash + (bar + dots + apple)) == "FOO_BAR_APPLE"
  {
    ExamplePieces(foo, dash, bar, dots, apple);
    TranslationIdThreeWords(foo, dash, bar, dots, apple);
    assert "FOO" + "_" + ("BAR" + "_" + "APPLE") == "FOO_BAR_APPLE";
  }

  lemma ExamplePieces(foo: string, dash: string, bar: string, dots: string, apple: string)
    requires foo == "foo" && dash == "-" && bar == "bar" && dots == ". " && apple == "apple"
    ensures AllLetters(foo) && AllLetters(bar) && AllLetters(apple)
    ensures NoLetters(dash) && NoLetters(dots)
    ensures ToUpperCase(foo) == "FOO" && ToUpperCase(bar) == "BAR" && ToUpperCase(apple) == "APPLE"
    ensures Underscores((|dash| + 1) / 2) == "_" && Underscores((|dots| + 1) / 2) == "_"
  {
  }

  /** Texts without letters, such as "" and "123", yield the empty key. */
  lemma TranslationIdEmptyExamples()
    ensures TranslationId("") == "" && TranslationId("123") == ""
  {
    TranslationIdNoLetters("123");
  }

  /** Three separators leave a doubled underscore, and deriving again from
      that key removes it: the derivation is not idempotent. */
  lemma TranslationIdNotIdempotent()
    ensures TranslationId("a...b") == "A__B"
    ensures TranslationId(TranslationId("a...b")) == "A_B"
  {
    assert "a...b" == "a" + "..." + "b";
    ThreeSeparators("a", "...", "b");
    assert "A__B" == "A" + "__" + "B";
    TwoUnderscores("A", "__", "B");
  }

  lemma ThreeSeparators(a: string, dots: string, b: string)
    requires a == "a" && dots == "..." && b == "b"
    ensures TranslationId(a + dots + b) == "A__B"
  {
    TranslationIdTwoWords(a, dots, b);
    assert ToUpperCase(a) + Underscores(2) + ToUpperCase(b) == "A__B";
  }

  lemma TwoUnderscores(a: string, underscores: string, b: string)
    requires a == "A" && underscores == "__" && b == "B"
    ensures TranslationId(a + underscores + b) == "A_B"
  {
    TranslationIdTwoWords(a, underscores, b);
    assert ToUpperCase(a) + Underscores(1) + ToUpperCase(b) == "A_B";
  }

  // ---------------------------------------------------------------------------
  // The corrected derivation. The "__" pass evidently means to collapse each
  // run of separators into a single '_', but for runs of three or more it
  // leaves doubled underscores; the definitions below collapse every run.

  /** The shape an intended translation key has: upper-case letters and
      underscores, no underscore at either end, no two underscores in a row. */
  predicate IsWellFormedKey(s: string) {
    && AllKeyChars(s)
    && (s == [] || (s[0] != '_' && s[|s| - 1] != '_'))
    && NoDoubledUnderscore(s)
  }

  /** No two adjacent underscores. */
  predicate NoDoubledUnderscore(s: string) {
    forall i :: 0 <= i < |s| - 1 ==> !(s[i] == '_' && s[i + 1] == '_')
  }

  /** Every run of underscores collapsed to one (`replaceAll("_+", "_")`). */
  function SquashUnderscores(s: string): (r: string)
    ensures s != [] ==> r != [] && r[0] == s[0]
  {
    if |s| >= 2 && s[0] == '_' && s[1] == '_' then SquashUnderscores(s[1..])
    else if s == [] then []
    else [s[0]] + SquashUnderscores(s[1..])
  }

  /** Collapsing keeps the last character. */
  lemma {:induction false} SquashLast(s: string)
    requires s != []
    ensures SquashUnderscores(s)[|SquashUnderscores(s)| - 1] == s[|s| - 1]
  {
    if |s| >= 2 {
      SquashLast(s[1..]);
    }
  }

  /** Collapsing leaves no two underscores side by side. */
  lemma {:induction false} SquashNoDoubled(s: string)
    ensures NoDoubledUnderscore(SquashUnderscores(s))
  {
    if |s| >= 2 && s[0] == '_' && s[1] == '_' {
      SquashNoDoubled(s[1..]);
    } else if s != [] {
      var tail := SquashUnderscores(s[1..]);
      SquashNoDoubled(s[1..]);
      assert SquashUnderscores(s) == [s[0]] + tail;
      forall i | 0 <= i < |tail|
        ensures !(([s[0]] + tail)[i] == '_' && ([s[0]] + tail)[i + 1] == '_')
      {
        if i > 0 {
          assert ([s[0]] + tail)[i] == tail[i - 1];
        }
      }
    }
  }

  /** The key derivation with runs collapsed to a single '_'. */
  function IntendedTranslationId(text: string): string
  {
    StripTrailing(StripLeading(SquashUnderscores(Separated(text))))
  }

  lemma {:induction false} LettersSquashUnderscores(s: string)
    ensures Letters(SquashUnderscores(s)) == Letters(s)
  {
    if |s| >= 2 && s[0] == '_' && s[1] == '_' {
      LettersSquashUnderscores(s[1..]);
    } else if s != [] {
      LettersSquashUnderscores(s[1..]);
      LettersAppend([s[0]], SquashUnderscores(s[1..]));
    }
  }

  lemma {:induction false} KeyCharsSquashUnderscores(s: string)
    requires AllKeyChars(s)
    ensures AllKeyChars(SquashUnderscores(s))
  {
    if s != [] {
      KeyCharsSquashUnderscores(s[1..]);
    }
  }

  lemma NoDoubledSplit(a: string, b: string)
    requires NoDoubledUnderscore(a + b)
    ensures NoDoubledUnderscore(a) && NoDoubledUnderscore(b)
  {
    assert forall i :: 0 <= i < |a| ==> a[i] == (a + b)[i];
    assert forall i :: 0 <= i < |b| ==> b[i] == (a + b)[|a| + i];
  }

  /** Stripping the front keeps the alphabet and adds no doubled underscore. */
  lemma StripLeadingKeepsKeyChars(s: string)
    requires AllKeyChars(s) && NoDoubledUnderscore(s)
    ensures AllKeyChars(StripLeading(s)) && NoDoubledUnderscore(StripLeading(s))
  {
    var leading := StripLeading(s);
    StripLeadingShape(s);
    AllKeyCharsSplit(Underscores(|s| - |leading|), leading);
    NoDoubledSplit(Underscores(|s| - |leading|), leading);
  }

  /** Stripping the back keeps the alphabet and adds no doubled underscore. */
  lemma StripTrailingKeepsKeyChars(s: string)
    requires AllKeyChars(s) && NoDoubledUnderscore(s)
    ensures AllKeyChars(StripTrailing(s)) && NoDoubledUnderscore(StripTrailing(s))
  {
    var trailing := StripTrailing(s);
    StripTrailingShape(s);
    AllKeyCharsSplit(trailing, Underscores(|s| - |trailing|));
    NoDoubledSplit(trailing, Underscores(|s| - |trailing|));
  }

  /** The corrected derivation always yields a well-formed key. */
  lemma IntendedTranslationIdIsWellFormed(text: string)
    ensures IsWellFormedKey(IntendedTranslationId(text))
  {
    var separated := Separated(text);
    var squashed := SquashUnderscores(separated);
    KeyCharsSquashUnderscores(separated);
    SquashNoDoubled(separated);
    var leading := StripLeading(squashed);
    StripLeadingKeepsKeyChars(squashed);
    StripTrailingKeepsKeyChars(leading);
    var id := StripTrailing(leading);
    if id != [] {
      StripsKeepFirst(leading);
    }
  }

  /** The corrected derivation keeps the letters of the text, upper-cased. */
  lemma IntendedTranslationIdLetters(text: string)
    ensures Letters(IntendedTranslationId(text)) == ToUpperCase(Letters(text))
  {
    var upper := ToUpperCase(text);
    LettersToUpperCase(text);
    LettersReplaceNonLetters(upper);
    var separated := Separated(text);
    LettersSquashUnderscores(separated);
    LettersStrip(SquashUnderscores(separated));
  }

  /** Collapsing runs works piecewise unless an underscore sits on each side
      of the boundary. */
  lemma {:induction false} SquashAppend(x: string, y: string)
    requires x == [] || x[|x| - 1] != '_' || y == [] || y[0] != '_'
    ensures SquashUnderscores(x + y) == SquashUnderscores(x) + SquashUnderscores(y)
    decreases |x|, 1
  {
    if x == [] {
      assert x + y == y;
    } else if |x| >= 2 && x[0] == '_' && x[1] == '_' {
      SquashAppendAtPair(x, y);
    } else {
      SquashAppendAtSingle(x, y);
    }
  }

  /** SquashAppend for a text that starts with a pair. */
  lemma {:induction false} SquashAppendAtPair(x: string, y: string)
    requires |x| >= 2 && x[0] == '_' && x[1] == '_'
    requires x[|x| - 1] != '_' || y == [] || y[0] != '_'
    ensures SquashUnderscores(x + y) == SquashUnderscores(x) + SquashUnderscores(y)
    decreases |x|, 0
  {
    var s := x + y;
    var t := x[1..];
    assert t[|t| - 1] == x[|x| - 1];
    SquashAppend(t, y);
    assert s[0] == '_' && s[1] == '_' && s[1..] == t + y;
  }

  /** SquashAppend for a text that starts with a character that does not
      begin a pair. */
  lemma {:induction false} SquashAppendAtSingle(x: string, y: string)
    requires x != [] && !(|x| >= 2 && x[0] == '_' && x[1] == '_')
    requires x[|x| - 1] != '_' || y == [] || y[0] != '_'
    ensures SquashUnderscores(x + y) == SquashUnderscores(x) + SquashUnderscores(y)
    decreases |x|, 0
  {
    var s := x + y;
    var t := x[1..];
    assert t == [] || t[|t| - 1] == x[|x| - 1];
    SquashAppend(t, y);
    assert s[1..] == t + y;
    NoPairAcross(x, y);
    SquashAtSingle(s);
    SquashAtSingle(x);
  }

  /** One unfolding of the collapse at a character that does not start a
      pair. */
  lemma SquashAtSingle(s: string)
    requires s != [] && !(|s| >= 2 && s[0] == '_' && s[1] == '_')
    ensures SquashUnderscores(s) == [s[0]] + SquashUnderscores(s[1..])
  {
  }

  /** A run of underscores collapses to at most one. */
  lemma {:induction false} SquashRun(n: nat)
    ensures SquashUnderscores(Underscores(n)) == Underscores(if n == 0 then 0 else 1)
  {
    if n >= 2 {
      assert Underscores(n)[1..] == Underscores(n - 1);
      SquashRun(n - 1);
    } else if n == 1 {
      assert Underscores(n)[1..] == [];
    }
  }

  /** Text without doubled underscores is left as it is. */
  lemma {:induction false} SquashIdentity(s: string)
    requires NoDoubledUnderscore(s)
    ensures SquashUnderscores(s) == s
  {
    if s != [] {
      NoDoubledSplit([s[0]], s[1..]);
      assert s == [s[0]] + s[1..];
      SquashIdentity(s[1..]);
    }
  }

  /** The tail may be collapsed before or after the first character is added. */
  lemma SquashCons(c: char, x: string)
    ensures SquashUnderscores([c] + x) == SquashUnderscores([c] + SquashUnderscores(x))
  {
    var sx := SquashUnderscores(x);
    SquashNoDoubled(x);
    SquashIdentity(sx);
    assert ([c] + x)[1..] == x && ([c] + sx)[1..] == sx;
  }

  /** The source's pair pass loses nothing that collapsing runs would keep. */
  lemma {:induction false} SquashReplacePairs(s: string)
    ensures SquashUnderscores(ReplacePairs(s)) == SquashUnderscores(s)
  {
    if |s| >= 2 && s[0] == '_' && s[1] == '_' {
      SquashReplacePairs(s[2..]);
      assert s[1..] == "_" + s[2..];
      SquashCons('_', s[2..]);
      SquashCons('_', ReplacePairs(s[2..]));
    } else if s != [] {
      SquashReplacePairs(s[1..]);
      assert s == [s[0]] + s[1..];
      SquashCons(s[0], s[1..]);
      SquashCons(s[0], ReplacePairs(s[1..]));
    }
  }

  lemma SquashStripLeading(x: string)
    ensures StripLeading(SquashUnderscores(x)) == SquashUnderscores(StripLeading(x))
  {
    var rest := StripLeading(x);
    var m := |x| - |rest|;
    StripLeadingShape(x);
    SquashAppend(Underscores(m), rest);
    SquashRun(m);
    StripLeadingUnderscores(if m == 0 then 0 else 1, SquashUnderscores(rest));
  }

  lemma SquashStripTrailing(y: string)
    ensures StripTrailing(SquashUnderscores(y)) == SquashUnderscores(StripTrailing(y))
  {
    var rest := StripTrailing(y);
    var m := |y| - |rest|;
    StripTrailingShape(y);
    SquashAppend(rest, Underscores(m));
    SquashRun(m);
    StripTrailingUnderscores(SquashUnderscores(rest), if m == 0 then 0 else 1);
    if rest != [] {
      SquashLast(rest);
    }
  }

  /** The corrected key is the source's key with its remaining runs of
      underscores collapsed. */
  lemma IntendedIsSquashedTranslationId(text: string)
    ensures IntendedTranslationId(text) == SquashUnderscores(TranslationId(text))
  {
    var separated := Separated(text);
    var paired := ReplacePairs(separated);
    SquashStripTrailing(StripLeading(paired));
    SquashStripLeading(paired);
    SquashReplacePairs(separated);
  }

  /** Where the source's key has no doubled underscore, it is the corrected
      key: the two derivations differ only on runs of three or more
      separators. */
  lemma TranslationIdAgreesWhenWellFormed(text: string)
    requires NoDoubledUnderscore(TranslationId(text))
    ensures TranslationId(text) == IntendedTranslationId(text)
  {
    IntendedIsSquashedTranslationId(text);
    SquashIdentity(TranslationId(text));
  }

  /** The example from the source's tests holds for the corrected derivation
      as well. */
  lemma IntendedTranslationIdExample()
    ensures IntendedTranslationId(".foo-bar. apple.") == "FOO_BAR_APPLE"
  {
    TranslationIdExample();
    AgreesOnExample(".foo-bar. apple.", "FOO_BAR_APPLE");
  }

  lemma AgreesOnExample(text: string, id: string)
    requires TranslationId(text) == id && id == "FOO_BAR_APPLE"
    ensures IntendedTranslationId(text) == id
  {
    assert NoDoubledUnderscore(id);
    TranslationIdAgreesWhenWellFormed(text);
  }

  /** On "a...b" the source's derivation leaves a doubled underscore, which a
      key may not contain; the corrected derivation gives "A_B". */
  lemma TranslationIdDoubledUnderscore()
    ensures TranslationId("a...b") == "A__B" && !IsWellFormedKey(TranslationId("a...b"))
    ensures IntendedTranslationId("a...b") == "A_B"
  {
    TranslationIdNotIdempotent();
    assert "A__B"[1] == '_' && "A__B"[2] == '_';
    var separated := Separated("a...b");
    assert separated == "A___B";
    assert SquashUnderscores("A___B") == "A_B";
  }
}
