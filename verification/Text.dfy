/** The few operations of Go's strings package the daemon uses, on ASCII text. */
module Text {
  import opened Wrappers

  function LowerChar(c: char): char {
    if 'A' <= c <= 'Z' then (c as int + 32) as char else c
  }

  function ToLower(s: string): (t: string)
    ensures |t| == |s|
  {
    seq(|s|, i requires 0 <= i < |s| => LowerChar(s[i]))
  }

  predicate IsSpace(c: char) {
    c == ' ' || '\t' <= c <= '\r'
  }

  function TrimLeft(s: string): string {
    if s != [] && IsSpace(s[0]) then TrimLeft(s[1..]) else s
  }

  function TrimRight(s: string): string {
    if s != [] && IsSpace(s[|s| - 1]) then TrimRight(s[..|s| - 1]) else s
  }

  function TrimSpace(s: string): string {
    TrimRight(TrimLeft(s))
  }

  // strings.TrimSuffix with a suffix of one character.
  function TrimSuffix(s: string, c: char): string {
    if EndsWith(s, c) then s[..|s| - 1] else s
  }

  predicate EndsWith(s: string, c: char) {
    s != [] && s[|s| - 1] == c
  }

  // No white space at either end.
  predicate IsTrimmed(s: string) {
    s != [] ==> !IsSpace(s[0]) && !IsSpace(s[|s| - 1])
  }

  lemma {:induction false} TrimRightKeepsFirst(s: string)
    ensures TrimRight(s) <= s
    ensures TrimRight(s) != [] ==> !IsSpace(TrimRight(s)[|TrimRight(s)| - 1])
  {
    if s != [] && IsSpace(s[|s| - 1]) {
      TrimRightKeepsFirst(s[..|s| - 1]);
    }
  }

  lemma {:induction false} TrimLeftStripsFront(s: string)
    ensures TrimLeft(s) != [] ==> !IsSpace(TrimLeft(s)[0])
  {
    if s != [] && IsSpace(s[0]) {
      TrimLeftStripsFront(s[1..]);
    }
  }

  lemma TrimSpaceTrims(s: string)
    ensures IsTrimmed(TrimSpace(s))
    ensures IsTrimmed(s) <==> TrimSpace(s) == s
  {
    TrimLeftStripsFront(s);
    TrimRightKeepsFirst(TrimLeft(s));
  }

  lemma TrimSpaceShortens(s: string)
    ensures |TrimSpace(s)| <= |s|
  {
    TrimLeftShortens(s);
    TrimRightKeepsFirst(TrimLeft(s));
  }

  lemma {:induction false} TrimLeftShortens(s: string)
    ensures |TrimLeft(s)| <= |s|
  {
    if s != [] && IsSpace(s[0]) {
      TrimLeftShortens(s[1..]);
    }
  }

  lemma LowerTwice(s: string)
    ensures ToLower(ToLower(s)) == ToLower(s)
    ensures IsTrimmed(s) <==> IsTrimmed(ToLower(s))
    ensures forall c | !('A' <= c <= 'Z' || 'a' <= c <= 'z') :: EndsWith(ToLower(s), c) <==> EndsWith(s, c)
  {
  }

  lemma LowerOfConcat(a: string, b: string)
    ensures ToLower(a + b) == ToLower(a) + ToLower(b)
  {
  }

  // The same character, or a letter of A to Z and the same letter of a to z.
  predicate SameLetter(c: char, d: char) {
    || c == d
    || ('A' <= c <= 'Z' && d as int == c as int + 32)
    || ('A' <= d <= 'Z' && c as int == d as int + 32)
  }

  predicate SameButCase(s: string, t: string) {
    |s| == |t| && forall i :: 0 <= i < |s| ==> SameLetter(s[i], t[i])
  }

  predicate HasUpper(s: string) {
    exists i :: 0 <= i < |s| && 'A' <= s[i] <= 'Z'
  }

  /** Lower-casing changes the case of letters only, and leaves no upper case. */
  lemma LowerMeaning(s: string)
    ensures SameButCase(s, ToLower(s)) && !HasUpper(ToLower(s))
  {
  }

  /** Two texts come to the same in lower case exactly when they differ in letter case only. */
  lemma SameLowerIff(s: string, t: string)
    ensures ToLower(s) == ToLower(t) <==> SameButCase(s, t)
  {
    if ToLower(s) == ToLower(t) {
      forall i | 0 <= i < |s| ensures |s| == |t| && SameLetter(s[i], t[i]) {
        assert ToLower(s)[i] == ToLower(t)[i];
      }
    }
  }

  // Tabs, line feeds, vertical tabs, form feeds, carriage returns and blanks.
  predicate IsBlank(s: string) {
    forall i :: 0 <= i < |s| ==> s[i] as int in {9, 10, 11, 12, 13, 32}
  }

  /** Trimming takes off all white space at either end, and nothing else. */
  lemma TrimSpaceOf(before: string, s: string, after: string)
    requires IsBlank(before) && IsBlank(after)
    requires s != "" ==> !IsBlank([s[0]]) && !IsBlank([s[|s| - 1]])
    ensures TrimSpace(before + s + after) == s
  {
    TrimLeftOf(before, s + after);
    assert before + s + after == before + (s + after);
    if s == "" {
      assert s + after == after;
      TrimLeftOf(after, "");
      assert after + "" == after;
      TrimRightOf("", TrimLeft(after));
    } else {
      assert (s + after)[0] == s[0] && [s[0]][0] == s[0] && [s[|s| - 1]][0] == s[|s| - 1];
      TrimRightOf(s, after);
    }
  }

  lemma {:induction false} TrimLeftOf(before: string, s: string)
    requires IsBlank(before)
    ensures TrimLeft(before + s) == TrimLeft(s)
  {
    if before == "" {
      assert before + s == s;
    } else {
      assert (before + s)[1..] == before[1..] + s;
      TrimLeftOf(before[1..], s);
    }
  }

  lemma {:induction false} TrimRightOf(s: string, after: string)
    requires IsBlank(after) && (s != "" ==> !IsSpace(s[|s| - 1]))
    ensures TrimRight(s + after) == s
  {
    if after == "" {
      assert s + after == s;
    } else {
      assert (s + after)[..|s + after| - 1] == s + after[..|after| - 1];
      TrimRightOf(s, after[..|after| - 1]);
    }
  }

  /** One slash, or whatever the suffix is, goes, and only one. */
  lemma TrimSuffixOf(s: string, c: char)
    ensures TrimSuffix(s + [c], c) == s
    ensures s == "" || s[|s| - 1] != c ==> TrimSuffix(s, c) == s
  {
  }

  // The key under which the resolution cache files a name.
  function NormalName(s: string): string {
    ToLower(TrimSpace(s))
  }

  lemma NormalNameTwice(s: string)
    ensures NormalName(NormalName(s)) == NormalName(s)
  {
    TrimSpaceTrims(s);
    LowerTwice(TrimSpace(s));
    TrimSpaceTrims(NormalName(s));
  }

  /** Two names have one key exactly when they differ in letter case and white space around them only. */
  lemma SameNameIff(s: string, t: string)
    ensures NormalName(s) == NormalName(t) <==> SameButCase(TrimSpace(s), TrimSpace(t))
    ensures SameButCase(NormalName(s), TrimSpace(s)) && !HasUpper(NormalName(s))
  {
    SameLowerIff(TrimSpace(s), TrimSpace(t));
    LowerMeaning(TrimSpace(s));
  }

  // The second part of strings.SplitN(s, ".", 2), when there is one.
  function AfterFirstDot(s: string): Option<string> {
    if s == [] then None
    else if s[0] == '.' then Some(s[1..])
    else AfterFirstDot(s[1..])
  }

  /** What comes after the first dot. */
  lemma {:induction false} AfterFirstDotOf(a: string, b: string)
    requires '.' !in a
    ensures AfterFirstDot(a + "." + b) == Some(b)
    ensures AfterFirstDot(a).None?
  {
    if a == "" {
      assert (a + "." + b)[1..] == b;
    } else {
      assert (a + "." + b)[1..] == a[1..] + "." + b;
      AfterFirstDotOf(a[1..], b);
    }
  }

  // ------------------------------------------------------------ labels

  // strings.Split(s, ".")
  function Split(s: string): (parts: seq<string>)
    ensures |parts| >= 1
  {
    if s == [] then [[]]
    else
      Prepend(s[0], Split(s[1..]))
  }

  function Join(parts: seq<string>): string
    requires parts != []
  {
    if |parts| == 1 then parts[0] else parts[0] + "." + Join(parts[1..])
  }

  function Last(parts: seq<string>): string
    requires parts != []
  {
    parts[|parts| - 1]
  }

  function Prepend(c: char, parts: seq<string>): seq<string>
    requires parts != []
  {
    if c == '.' then [[]] + parts else [[c] + parts[0]] + parts[1..]
  }

  lemma {:induction false} SplitStep(s: string)
    requires s != []
    ensures Split(s) == Prepend(s[0], Split(s[1..]))
  {
  }

  lemma PrependStep(c: char, a: seq<string>, b: seq<string>)
    requires a != []
    ensures Prepend(c, a + b) == Prepend(c, a) + b
  {
  }

  /** Splitting a text is the same as splitting what is on either side of one of its dots. */
  lemma {:induction false} SplitAtDot(a: string, b: string)
    ensures Split(a + "." + b) == Split(a) + Split(b)
  {
    if a == [] {
      assert a + "." + b == "." + b;
      assert ("." + b)[1..] == b;
    } else {
      SplitAtDot(a[1..], b);
      SplitStep(a + "." + b);
      assert (a + "." + b)[1..] == a[1..] + "." + b;
      PrependStep(a[0], Split(a[1..]), Split(b));
    }
  }

  lemma {:induction false} SplitLabels(s: string)
    ensures forall i :: 0 <= i < |Split(s)| ==> '.' !in Split(s)[i]
    ensures Join(Split(s)) == s
  {
    if s != [] {
      var rest := Split(s[1..]);
      SplitLabels(s[1..]);
      var parts := Split(s);
      if s[0] == '.' {
        assert parts[1..] == rest;
        assert s == [] + "." + s[1..];
      } else {
        assert parts[1..] == rest[1..];
        assert s == [s[0]] + s[1..];
        if |parts| > 1 {
          assert parts[0] + "." + Join(parts[1..]) == [s[0]] + (rest[0] + "." + Join(rest[1..]));
        }
      }
    }
  }

  lemma {:induction false} SplitOfLabel(s: string)
    requires '.' !in s
    ensures Split(s) == [s]
  {
    if s != [] {
      SplitOfLabel(s[1..]);
      assert s == [s[0]] + s[1..];
    }
  }

  lemma {:induction false} JoinOfConcat(a: seq<string>, b: seq<string>)
    requires a != [] && b != []
    ensures Join(a + b) == Join(a) + "." + Join(b)
  {
    if |a| == 1 {
      assert (a + b)[1..] == b;
    } else {
      JoinOfConcat(a[1..], b);
      assert (a + b)[1..] == a[1..] + b;
      assert a[0] + "." + (Join(a[1..]) + "." + Join(b)) == (a[0] + "." + Join(a[1..])) + "." + Join(b);
    }
  }

  lemma {:induction false} SplitOfJoin(parts: seq<string>)
    requires parts != [] && forall i :: 0 <= i < |parts| ==> '.' !in parts[i]
    ensures Split(Join(parts)) == parts
  {
    SplitOfLabel(parts[0]);
    if |parts| > 1 {
      SplitOfJoin(parts[1..]);
      SplitAtDot(parts[0], Join(parts[1..]));
    }
  }

  // strings.HasPrefix(s[p:], t)
  predicate OccursAt(s: string, t: string, p: nat) {
    p + |t| <= |s| && s[p..p + |t|] == t
  }

  // strings.Index(s, t): where t occurs first, or -1.
  function Index(s: string, t: string): (p: int)
    ensures -1 <= p <= |s|
    ensures p >= 0 ==> OccursAt(s, t, p)
    ensures forall q: nat :: OccursAt(s, t, q) ==> 0 <= p <= q
  {
    IndexFrom(s, t, 0)
  }

  function IndexFrom(s: string, t: string, from: nat): (p: int)
    requires from <= |s|
    ensures p == -1 || from <= p <= |s|
    ensures p >= 0 ==> OccursAt(s, t, p)
    ensures forall q: nat :: from <= q && OccursAt(s, t, q) ==> 0 <= p <= q
    decreases |s| - from
  {
    if OccursAt(s, t, from) then from
    else if from == |s| then -1
    else IndexFrom(s, t, from + 1)
  }
}
