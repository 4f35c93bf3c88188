/** The grammar of DNN names: n, two dictionary words, digits, letters, recognised greedily. */
module Detector {
  import opened Wrappers
  import opened Text

  predicate IsLetter(c: char) { 'a' <= c <= 'z' }

  predicate IsDigit(c: char) { '0' <= c <= '9' }

  predicate AllLetters(s: string) {
    forall i :: 0 <= i < |s| ==> IsLetter(s[i])
  }

  predicate AllDigits(s: string) {
    forall i :: 0 <= i < |s| ==> IsDigit(s[i])
  }

  // The shape of the word list: lower-case words of 3 to 8 letters.
  predicate IsWord(w: string) {
    3 <= |w| <= 8 && AllLetters(w)
  }

  type Dictionary = d: set<string> | forall w :: w in d ==> IsWord(w) witness {}

  // ------------------------------------------------------------ the longest word at the start

  // The longest word of at most n letters that s starts with; empty if there is none.
  function LongestUpTo(words: Dictionary, s: string, n: nat): (w: string)
    ensures w <= s && (w == "" || w in words)
  {
    if n < 3 then ""
    else if n <= |s| && s[..n] in words then s[..n]
    else LongestUpTo(words, s, n - 1)
  }

  // The longest word s starts with; no word has more than 8 letters, nor more than s has.
  function LongestWord(words: Dictionary, s: string): (w: string)
    ensures w <= s && (w == "" || w in words)
  {
    LongestUpTo(words, s, if |s| < 8 then |s| else 8)
  }

  lemma {:induction false} TooLongToStart(words: Dictionary, s: string, n: nat)
    requires |s| <= n
    ensures LongestUpTo(words, s, n) == LongestUpTo(words, s, |s|)
  {
    if n > |s| {
      TooLongToStart(words, s, n - 1);
    }
  }

  predicate NoLongerWord(words: Dictionary, w: string, s: string) {
    forall v :: v in words && v <= s ==> |v| <= |w|
  }

  lemma {:induction false} LongestUpToIsLongest(words: Dictionary, s: string, n: nat)
    ensures var w := LongestUpTo(words, s, n);
            forall v :: v in words && v <= s && |v| <= n ==> |v| <= |w|
  {
    if n >= 3 && !(n <= |s| && s[..n] in words) {
      LongestUpToIsLongest(words, s, n - 1);
      forall v | v in words && v <= s && |v| <= n ensures |v| < n {
        assert v == s[..|v|];
      }
    }
  }

  /** A word is the one matched exactly when s starts with it and with no longer word. */
  lemma LongestWordIff(words: Dictionary, s: string, w: string)
    requires w in words
    ensures LongestWord(words, s) == w <==> w <= s && NoLongerWord(words, w, s)
  {
    LongestUpToIsLongest(words, s, if |s| < 8 then |s| else 8);
    var u := LongestWord(words, s);
    if w <= s && NoLongerWord(words, w, s) {
      assert |u| == |w|;
      assert u == s[..|u|] && w == s[..|w|];
    }
  }

  method MatchBIP39Prefix(words: Dictionary, s: string) returns (word: string, rest: string)
    ensures word == LongestWord(words, s)
    ensures s == word + rest
  {
    var bestMatch := "";
    var wordLen := 8;
    if |s| < wordLen {
      TooLongToStart(words, s, wordLen);
    }
    while wordLen >= 3
      invariant 2 <= wordLen <= 8
      invariant bestMatch == "" ==> LongestWord(words, s) == LongestUpTo(words, s, wordLen)
      invariant bestMatch != "" ==> bestMatch == LongestWord(words, s) && |bestMatch| > wordLen && bestMatch <= s
    {
      if wordLen <= |s| {
        var candidate := s[..wordLen];
        if candidate in words {
          if |candidate| > |bestMatch| {
            bestMatch := candidate;
          }
        }
      }
      wordLen := wordLen - 1;
    }
    return bestMatch, s[|bestMatch|..];
  }

  // ------------------------------------------------------------ labels

  datatype Parts = Parts(word1: string, word2: string, digits: string, letters: string)

  function LeadingDigits(s: string): (d: string)
    ensures d <= s && AllDigits(d)
    ensures |d| < |s| ==> !IsDigit(s[|d|])
  {
    if s != [] && IsDigit(s[0]) then [s[0]] + LeadingDigits(s[1..]) else []
  }

  // The parts of a label, whatever its first character.
  function Parse(words: Dictionary, part: string): Option<Parts>
    requires part != ""
  {
    var word1 := LongestWord(words, part[1..]);
    if word1 == "" then None else ParseSecond(words, word1, part[1..][|word1|..])
  }

  function ParseSecond(words: Dictionary, word1: string, s: string): Option<Parts> {
    var word2 := LongestWord(words, s);
    if word2 == "" then None
    else
      match ParseTail(s[|word2|..])
      case None => None
      case Some((digits, letters)) => Some(Parts(word1, word2, digits, letters))
  }

  function ParseTail(s: string): Option<(string, string)> {
    var digits := LeadingDigits(s);
    var letters := s[|digits|..];
    if letters == "" || !AllLetters(letters) then None else Some((digits, letters))
  }

  method IsDNNEncoded(words: Dictionary, s: string) returns (encoded: bool)
    requires s != ""
    ensures encoded <==> Parse(words, s).Some?
  {
    var rest := s[1..];
    var word1, remainder := MatchBIP39Prefix(words, rest);
    if word1 == "" {
      return false;
    }
    assert remainder == rest[|word1|..];
    ghost var remainder1 := remainder;
    var word2: string;
    word2, remainder := MatchBIP39Prefix(words, remainder);
    if word2 == "" {
      return false;
    }
    assert remainder == remainder1[|word2|..];
    encoded := HasPositionLetters(remainder);
  }

  // Optional digits, then letters to the end, at least one.
  method HasPositionLetters(s: string) returns (ok: bool)
    ensures ok <==> ParseTail(s).Some?
  {
    var remainder := s;
    while |remainder| > 0 && '0' <= remainder[0] <= '9'
      invariant ParseTail(remainder).Some? <==> ParseTail(s).Some?
    {
      assert remainder[1..][|LeadingDigits(remainder[1..])|..] == remainder[|LeadingDigits(remainder)|..];
      remainder := remainder[1..];
    }
    assert LeadingDigits(remainder) == "" && remainder[0..] == remainder;
    if |remainder| == 0 {
      return false;
    }
    for i := 0 to |remainder|
      invariant forall j :: 0 <= j < i ==> IsLetter(remainder[j])
    {
      if remainder[i] < 'a' || remainder[i] > 'z' {
        return false;
      }
    }
    return true;
  }

  predicate WellFormed(words: Dictionary, p: Parts) {
    p.word1 in words && p.word2 in words && AllDigits(p.digits) && p.letters != "" && AllLetters(p.letters)
  }

  function Print(p: Parts): string {
    "n" + p.word1 + p.word2 + p.digits + p.letters
  }

  // Each word is the longest that starts where it starts.
  predicate Delimited(words: Dictionary, p: Parts) {
    && NoLongerWord(words, p.word1, Print(p)[1..])
    && (p.digits != "" || NoLongerWord(words, p.word2, p.word2 + p.letters))
  }

  /** Soundness: an accepted label is what its parts print to, and the parts are as the grammar says. */
  lemma ParseIsSound(words: Dictionary, part: string)
    requires part != "" && part[0] == 'n' && Parse(words, part).Some?
    ensures WellFormed(words, Parse(words, part).value) && Print(Parse(words, part).value) == part
  {
    var word1 := LongestWord(words, part[1..]);
    var rest1 := part[1..][|word1|..];
    SecondIsSound(words, word1, rest1);
    var p := Parse(words, part).value;
    PrintInSteps(p);
    HeadAndRest(part, word1, rest1);
  }

  lemma HeadAndRest(part: string, word: string, rest: string)
    requires part != "" && part[0] == 'n' && word <= part[1..] && rest == part[1..][|word|..]
    ensures part == "n" + word + rest
  {
    assert part[1..] == word + rest;
  }

  lemma SecondIsSound(words: Dictionary, word1: string, s: string)
    requires ParseSecond(words, word1, s).Some?
    ensures var p := ParseSecond(words, word1, s).value;
            && p.word1 == word1 && p.word2 in words && AllDigits(p.digits) && p.letters != "" && AllLetters(p.letters)
            && s == p.word2 + (p.digits + p.letters)
  {
    var p := ParseSecond(words, word1, s).value;
    var rest2 := s[|p.word2|..];
    assert s == p.word2 + rest2;
    assert rest2 == p.digits + p.letters;
  }

  lemma PrintInSteps(p: Parts)
    ensures Print(p) == "n" + p.word1 + (p.word2 + (p.digits + p.letters))
    ensures Print(p)[1..] == p.word1 + (p.word2 + (p.digits + p.letters))
  {
  }

  lemma {:induction false} LeadingDigitsOf(d: string, s: string)
    requires AllDigits(d) && (s == "" || !IsDigit(s[0]))
    ensures LeadingDigits(d + s) == d
  {
    if d != [] {
      LeadingDigitsOf(d[1..], s);
      assert (d + s)[1..] == d[1..] + s;
    } else {
      assert d + s == s;
    }
  }

  // Digits end a word, because words have letters only.
  lemma DigitsDelimit(words: Dictionary, w: string, digits: string, letters: string)
    requires AllDigits(digits) && digits != ""
    ensures NoLongerWord(words, w, w + (digits + letters))
  {
    var t := w + (digits + letters);
    forall v | v in words && v <= t ensures |v| <= |w| {
      if |v| > |w| {
        PrefixCharacter(v, t, |w|);
        assert false;
      }
    }
  }

  lemma PrefixCharacter(v: string, t: string, k: nat)
    requires v <= t && k < |v|
    ensures v[k] == t[k]
  {
  }

  lemma TailRoundTrip(digits: string, letters: string)
    requires AllDigits(digits) && letters != "" && AllLetters(letters)
    ensures ParseTail(digits + letters) == Some((digits, letters))
  {
    LeadingDigitsOf(digits, letters);
    assert (digits + letters)[|digits|..] == letters;
  }

  lemma SecondRoundTrip(words: Dictionary, p: Parts)
    requires WellFormed(words, p)
    ensures ParseSecond(words, p.word1, p.word2 + (p.digits + p.letters)) == Some(p) <==>
            p.digits != "" || NoLongerWord(words, p.word2, p.word2 + p.letters)
  {
    var s := p.word2 + (p.digits + p.letters);
    LongestWordIff(words, s, p.word2);
    assert s[|p.word2|..] == p.digits + p.letters;
    TailRoundTrip(p.digits, p.letters);
    if p.digits != "" {
      DigitsDelimit(words, p.word2, p.digits, p.letters);
    } else {
      assert p.digits + p.letters == p.letters;
    }
  }

  /** Printing and parsing again gives the parts back exactly when no longer word starts where the
      first word does, and none where the second does unless digits follow it. */
  lemma RoundTripIff(words: Dictionary, p: Parts)
    requires WellFormed(words, p)
    ensures Parse(words, Print(p)) == Some(p) <==> Delimited(words, p)
  {
    PrintInSteps(p);
    var rest1 := p.word2 + (p.digits + p.letters);
    LongestWordIff(words, p.word1 + rest1, p.word1);
    assert (p.word1 + rest1)[|p.word1|..] == rest1;
    SecondRoundTrip(words, p);
  }

  /** A label is accepted exactly when it prints some parts whose words are each the longest
      possible where they start. */
  lemma AcceptedIff(words: Dictionary, part: string)
    requires part != "" && part[0] == 'n'
    ensures Parse(words, part).Some? <==> exists p :: WellFormed(words, p) && Delimited(words, p) && Print(p) == part
  {
    if Parse(words, part).Some? {
      ParseIsSound(words, part);
      RoundTripIff(words, Parse(words, part).value);
    }
    if p :| WellFormed(words, p) && Delimited(words, p) && Print(p) == part {
      RoundTripIff(words, p);
    }
  }

  /** And it prints no other such parts: the grammar, read this way, is unambiguous. */
  lemma PartsAreUnique(words: Dictionary, p: Parts, q: Parts)
    requires WellFormed(words, p) && Delimited(words, p)
    requires WellFormed(words, q) && Delimited(words, q)
    ensures Print(p) == Print(q) ==> p == q
  {
    RoundTripIff(words, p);
    RoundTripIff(words, q);
  }

  // ------------------------------------------------------------ prefix-free dictionaries

  // No word starts another one; so it is with the word list of the daemon.
  predicate PrefixFree(words: Dictionary) {
    forall v, w :: v in words && w in words && v <= w ==> v == w
  }

  // On such a dictionary nothing a word is followed by makes a longer word of it.
  lemma WordsDelimit(words: Dictionary, w: string, s: string)
    requires PrefixFree(words) && w in words && w <= s
    ensures NoLongerWord(words, w, s)
  {
    forall v | v in words && v <= s ensures |v| <= |w| {
      PrefixesCompare(v, w, s);
    }
  }

  lemma PrefixesCompare(v: string, w: string, s: string)
    requires v <= s && w <= s
    ensures v <= w || w <= v
  {
    assert v == s[..|v|] && w == s[..|w|];
  }

  lemma PrintIsDelimited(words: Dictionary, p: Parts)
    requires PrefixFree(words) && WellFormed(words, p)
    ensures Delimited(words, p)
  {
    PrintInSteps(p);
    WordsDelimit(words, p.word1, Print(p)[1..]);
    WordsDelimit(words, p.word2, p.word2 + p.letters);
  }

  ghost predicate AlwaysRoundTrips(words: Dictionary) {
    forall p :: WellFormed(words, p) ==> Parse(words, Print(p)) == Some(p)
  }

  // A word with its letters continued to a longer word is not found again.
  lemma GreedyMisses(words: Dictionary, v: string, w: string)
    requires v in words && w in words && v < w
    ensures !AlwaysRoundTrips(words)
  {
    assert IsWord(w);
    var p := Parts(v, v, "", w[|v|..]);
    assert w == v + w[|v|..];
    assert !NoLongerWord(words, v, v + w[|v|..]);
    RoundTripIff(words, p);
    assert WellFormed(words, p) && Parse(words, Print(p)) != Some(p);
  }

  /** Printing and parsing gives all well-formed parts back exactly when no word starts another. */
  lemma AlwaysRoundTripsIff(words: Dictionary)
    ensures AlwaysRoundTrips(words) <==> PrefixFree(words)
  {
    if PrefixFree(words) {
      PrintsParseBack(words);
    }
    forall v, w | v in words && w in words && v <= w && v != w ensures !AlwaysRoundTrips(words) {
      GreedyMisses(words, v, w);
    }
  }

  lemma PrintsParseBack(words: Dictionary)
    requires PrefixFree(words)
    ensures AlwaysRoundTrips(words)
  {
    forall p | WellFormed(words, p) ensures Parse(words, Print(p)) == Some(p) {
      PrintIsDelimited(words, p);
      RoundTripIff(words, p);
    }
  }

  /** On a prefix-free dictionary the greedy parse recognises the grammar: it accepts exactly the
      labels that well-formed parts print, and finds those parts. */
  lemma ParseDecidesGrammar(words: Dictionary, part: string, p: Parts)
    requires PrefixFree(words) && part != "" && part[0] == 'n'
    ensures Parse(words, part).Some? <==> exists q :: WellFormed(words, q) && Print(q) == part
    ensures Parse(words, part) == Some(p) <==> WellFormed(words, p) && Print(p) == part
  {
    AlwaysRoundTripsIff(words);
    if Parse(words, part).Some? {
      ParseIsSound(words, part);
    }
  }

  /** And no label has two readings. */
  lemma GrammarIsUnambiguous(words: Dictionary, p: Parts, q: Parts)
    requires PrefixFree(words) && WellFormed(words, p) && WellFormed(words, q)
    ensures Print(p) == Print(q) ==> p == q
  {
    AlwaysRoundTripsIff(words);
  }

  // ------------------------------------------------------------ names

  predicate IsSinglePartDNN(words: Dictionary, part: string) {
    |part| >= 8 && part[0] == 'n' && Parse(words, part).Some?
  }

  // A name without its final dot, in lower case.
  function Canonical(name: string): string {
    ToLower(TrimSuffix(name, '.'))
  }

  predicate IsDNNName(words: Dictionary, name: string) {
    |name| >= 8 && ' ' !in name && IsSinglePartDNN(words, Last(Split(Canonical(name))))
  }

  // The first label that is a DNN identifier, as an index; the number of labels if there is none.
  function FirstDNN(words: Dictionary, parts: seq<string>): (i: nat)
    ensures i <= |parts|
    ensures forall j :: 0 <= j < i ==> !IsSinglePartDNN(words, parts[j])
    ensures i < |parts| ==> IsSinglePartDNN(words, parts[i])
  {
    FirstDNNFrom(words, parts, 0)
  }

  function FirstDNNFrom(words: Dictionary, parts: seq<string>, from: nat): (i: nat)
    requires from <= |parts|
    ensures from <= i <= |parts|
    ensures forall j :: from <= j < i ==> !IsSinglePartDNN(words, parts[j])
    ensures i < |parts| ==> IsSinglePartDNN(words, parts[i])
    decreases |parts| - from
  {
    if from == |parts| || IsSinglePartDNN(words, parts[from]) then from else FirstDNNFrom(words, parts, from + 1)
  }

  function TLDOf(words: Dictionary, name: string): string {
    var parts := Split(Canonical(name));
    var i := FirstDNN(words, parts);
    if i < |parts| then parts[i] else Last(parts)
  }

  ghost predicate IsLeftmostDNN(words: Dictionary, parts: seq<string>, i: nat) {
    i < |parts| && IsSinglePartDNN(words, parts[i]) && forall j :: 0 <= j < i ==> !IsSinglePartDNN(words, parts[j])
  }

  lemma LeftmostIsFirst(words: Dictionary, parts: seq<string>, i: nat)
    ensures IsLeftmostDNN(words, parts, i) ==> FirstDNN(words, parts) == i
  {
  }

  method IsSinglePart(words: Dictionary, part: string) returns (dnn: bool)
    ensures dnn <==> IsSinglePartDNN(words, part)
  {
    if |part| < 8 {
      return false;
    }
    if part[0] != 'n' {
      return false;
    }
    dnn := IsDNNEncoded(words, part);
  }

  method GetTLD(words: Dictionary, name: string) returns (tld: string)
    ensures tld == TLDOf(words, name)
  {
    tld := LeftmostOrLast(words, Split(Canonical(name)));
  }

  // The scan of GetTLD over the labels.
  method LeftmostOrLast(words: Dictionary, parts: seq<string>) returns (tld: string)
    requires parts != []
    ensures var i := FirstDNN(words, parts);
            tld == if i < |parts| then parts[i] else Last(parts)
  {
    for k := 0 to |parts|
      invariant forall j :: 0 <= j < k ==> !IsSinglePartDNN(words, parts[j])
    {
      var dnn := IsSinglePart(words, parts[k]);
      if dnn {
        LeftmostIsFirst(words, parts, k);
        return parts[k];
      }
    }
    return Last(parts);
  }

  lemma CanonicalLabel(part: string)
    requires '.' !in part && ToLower(part) == part
    ensures Canonical(part) == part && Split(Canonical(part)) == [part]
  {
    SplitOfLabel(part);
  }

  lemma {:induction false} LowerSplit(s: string)
    requires ToLower(s) == s
    ensures forall i :: 0 <= i < |Split(s)| ==> ToLower(Split(s)[i]) == Split(s)[i]
  {
    if s != [] {
      assert s == [s[0]] + s[1..];
      assert forall k :: 0 <= k < |s| ==> LowerChar(s[k]) == s[k] by {
        assert forall k :: 0 <= k < |s| ==> ToLower(s)[k] == LowerChar(s[k]);
      }
      assert ToLower(s[1..]) == s[1..];
      LowerSplit(s[1..]);
      var rest := Split(s[1..]);
      assert ToLower([s[0]] + rest[0]) == [LowerChar(s[0])] + ToLower(rest[0]);
    }
  }

  lemma CanonicalParts(name: string, i: nat)
    requires i < |Split(Canonical(name))|
    ensures '.' !in Split(Canonical(name))[i] && ToLower(Split(Canonical(name))[i]) == Split(Canonical(name))[i]
  {
    SplitLabels(Canonical(name));
    LowerTwice(TrimSuffix(name, '.'));
    LowerSplit(Canonical(name));
  }

  lemma SomeLeftmost(words: Dictionary, parts: seq<string>)
    requires parts != [] && IsSinglePartDNN(words, Last(parts))
    ensures IsLeftmostDNN(words, parts, FirstDNN(words, parts))
  {
    assert IsSinglePartDNN(words, parts[|parts| - 1]);
  }

  /** The TLD of a DNN name is its leftmost DNN label. */
  lemma TLDIsLeftmostLabel(words: Dictionary, name: string)
    requires IsDNNName(words, name)
    ensures var parts := Split(Canonical(name));
            var i := FirstDNN(words, parts);
            IsLeftmostDNN(words, parts, i) && TLDOf(words, name) == parts[i]
  {
    SomeLeftmost(words, Split(Canonical(name)));
  }

  /** Without a DNN label the TLD is the last label. */
  lemma {:induction false} TLDOtherwise(words: Dictionary, name: string)
    requires forall i :: 0 <= i < |Split(Canonical(name))| ==> !IsSinglePartDNN(words, Split(Canonical(name))[i])
    ensures TLDOf(words, name) == Last(Split(Canonical(name)))
  {
  }

  // A text without its final dot, as a fully qualified name has it.
  lemma {:induction false} CanonicalOf(name: string)
    requires !EndsWith(name, '.')
    ensures SameButCase(Canonical(name), name) && !HasUpper(Canonical(name))
    ensures Canonical(name + ".") == Canonical(name)
  {
    TrimSuffixOf(name, '.');
    LowerMeaning(name);
  }

  // The label is n, two words, digits and letters.
  predicate Reads(words: Dictionary, part: string, p: Parts) {
    && part == "n" + p.word1 + p.word2 + p.digits + p.letters
    && p.word1 in words && p.word2 in words && p.letters != ""
    && (forall i :: 0 <= i < |p.digits| ==> '0' <= p.digits[i] <= '9')
    && (forall i :: 0 <= i < |p.letters| ==> 'a' <= p.letters[i] <= 'z')
  }

  /** On a prefix-free dictionary one label is a DNN identifier exactly when it can be read like that. */
  lemma {:induction false} SinglePartIff(words: Dictionary, part: string)
    requires PrefixFree(words)
    ensures IsSinglePartDNN(words, part) <==> exists p :: Reads(words, part, p)
  {
    if IsSinglePartDNN(words, part) {
      ParseIsSound(words, part);
      assert Reads(words, part, Parse(words, part).value);
    }
    if p :| Reads(words, part, p) {
      assert WellFormed(words, p) && Print(p) == part;
      PrintIsPlain(words, p);
      ParseDecidesGrammar(words, part, p);
    }
  }

  /** A name is a DNN name exactly when it has no blank and its last label is a DNN identifier, in any
      letter case, whatever comes before it. */
  lemma {:induction false} NameIff(words: Dictionary, front: string, part: string)
    requires part != "" && '.' !in part
    ensures IsDNNName(words, front + "." + part) <==> ' ' !in front && IsSinglePartDNN(words, ToLower(part))
  {
    var name := front + "." + part;
    LastLabelOf(front, part);
    assert forall i :: 0 <= i < |part| ==> part[i] == name[|front| + 1 + i];
    assert forall i :: 0 <= i < |front| ==> front[i] == name[i];
    if IsSinglePartDNN(words, ToLower(part)) {
      DNNLabelIsPlain(words, part);
    }
  }

  lemma {:induction false} LastLabelOf(front: string, part: string)
    requires part != "" && '.' !in part
    ensures Last(Split(Canonical(front + "." + part))) == ToLower(part)
  {
    var name := front + "." + part;
    assert name[|name| - 1] == part[|part| - 1];
    assert ToLower(name) == ToLower(front) + "." + ToLower(part);
    SplitAtDot(ToLower(front), ToLower(part));
    assert forall i :: 0 <= i < |part| ==> ToLower(part)[i] == LowerChar(part[i]);
    SplitOfLabel(ToLower(part));
  }

  lemma {:induction false} DNNLabelIsPlain(words: Dictionary, part: string)
    requires IsSinglePartDNN(words, ToLower(part))
    ensures ' ' !in part && |part| >= 8
  {
    var lower := ToLower(part);
    ParseIsSound(words, lower);
    PrintIsPlain(words, Parse(words, lower).value);
    forall i | 0 <= i < |part| ensures part[i] != ' ' {
      assert lower[i] == LowerChar(part[i]) && lower[i] in lower;
    }
  }

  /** A final dot makes no difference. */
  lemma {:induction false} FinalDotIgnored(words: Dictionary, name: string)
    requires name != "" && name[|name| - 1] != '.'
    ensures IsDNNName(words, name + ".") <==> IsDNNName(words, name)
    ensures TLDOf(words, name + ".") == TLDOf(words, name)
  {
    CanonicalOf(name);
    assert forall i :: 0 <= i < |name| ==> (name + ".")[i] == name[i];
    if |name| < 8 {
      LastIsShorter(Canonical(name));
    }
  }

  lemma {:induction false} LastIsShorter(s: string)
    ensures |Last(Split(s))| <= |s|
  {
    if s != "" {
      LastIsShorter(s[1..]);
    }
  }

  lemma TLDOfLabel(words: Dictionary, part: string)
    requires '.' !in part && ToLower(part) == part
    ensures TLDOf(words, part) == part
  {
    CanonicalLabel(part);
  }

  /** Taking the TLD is idempotent, on any name. */
  lemma TLDTwice(words: Dictionary, name: string)
    ensures TLDOf(words, TLDOf(words, name)) == TLDOf(words, name)
  {
    var parts := Split(Canonical(name));
    var i := FirstDNN(words, parts);
    CanonicalParts(name, if i < |parts| then i else |parts| - 1);
    TLDOfLabel(words, TLDOf(words, name));
  }

  /** A printed label is in lower case, has neither dots nor blanks, ends in a letter and is long enough. */
  lemma PrintIsPlain(words: Dictionary, p: Parts)
    requires WellFormed(words, p)
    ensures var part := Print(p);
            && '.' !in part && ' ' !in part && ToLower(part) == part
            && |part| >= 8 && part[0] == 'n' && IsLetter(part[|part| - 1])
  {
    assert IsWord(p.word1) && IsWord(p.word2);
    var part := Print(p);
    forall i | 0 <= i < |part| ensures IsLetter(part[i]) || IsDigit(part[i]) {
      PrintedCharacter(p, i);
    }
  }

  lemma PrintedCharacter(p: Parts, i: nat)
    requires i < |Print(p)|
    ensures Print(p)[i] == 'n' || Print(p)[i] in p.word1 || Print(p)[i] in p.word2 || Print(p)[i] in p.digits
            || Print(p)[i] in p.letters
  {
  }

  /** On a single lower-case label the two recognisers agree. */
  lemma NameOfOneLabel(words: Dictionary, part: string)
    requires '.' !in part && ToLower(part) == part
    ensures IsDNNName(words, part) <==> IsSinglePartDNN(words, part)
  {
    CanonicalLabel(part);
    if IsSinglePartDNN(words, part) {
      ParseIsSound(words, part);
      PrintIsPlain(words, Parse(words, part).value);
    }
  }
}
