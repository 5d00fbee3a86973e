/** The texts that the comments of libntp/atolfp.c and libntp/mstolfp.c describe (spaces,
    a sign, digits, a point and more digits, each of them optional, before a space or the
    end; the sign is a minus or a plus, in mstolfp.c a minus only), and the texts that
    the scanners take. */
module LfpGrammar {
  import opened CStrings
  import opened Decimal
  import opened LfpParse
  import opened Options

  predicate AllSpaces(s: string) { forall k :: 0 <= k < |s| ==> IsSpace(s[k]) }

  /** Which signs may stand before the digits: those of the comment, or the minus
      followed by a plus as well. */
  datatype Signs = Commented | Lenient

  predicate IsSign(t: string, plus: bool, signs: Signs)
  {
    t == "" || t == "-" || (plus && t == "+") || (plus && signs == Lenient && t == "-+")
  }

  /** The text has its spaces before a, its sign in a..c, its integral digits in c..e, and
      in e..f nothing, or a point with the fraction digits; at f it ends.  Where nothing
      at all is read, all spaces are taken. */
  predicate Reads(s: string, a: nat, c: nat, e: nat, f: nat, plus: bool, signs: Signs)
  {
    && a <= c <= e <= f <= |s|
    && AllSpaces(s[..a]) && (a == f ==> !IsSpace(CharAt(s, a)))
    && IsSign(s[a..c], plus, signs)
    && AllDigits(s[c..e])
    && (e < f ==> s[e] == '.' && AllDigits(s[e + 1..f]))
    && IsEnd(CharAt(s, f))
  }

  /** What such a text denotes. */
  function Meaning(s: string, a: nat, c: nat, e: nat, f: nat): Numeral
    requires a <= c <= e <= f <= |s| && AllDigits(s[c..e]) && (e < f ==> AllDigits(s[e + 1..f]))
  {
    Numeral(a < c && s[a] == '-', DigitsOf(s[c..e]), if e < f then DigitsOf(s[e + 1..f]) else [])
  }

  /** The comment: every part is optional. */
  ghost predicate Documented(s: string, plus: bool, n: Numeral)
  {
    exists a, c, e, f :: Reads(s, a, c, e, f, plus, Commented) && Meaning(s, a, c, e, f) == n
  }

  /** The code: more signs, but a digit or a point must be there. */
  ghost predicate Accepted(s: string, plus: bool, n: Numeral)
  {
    exists a, c, e, f :: Reads(s, a, c, e, f, plus, Lenient) && c < f && Meaning(s, a, c, e, f) == n
  }

  // ------------------------------------------------- the scanner takes that grammar

  lemma {:induction false} SpacesSkip(s: string, i: nat, a: nat)
    requires i <= a <= |s| && AllSpaces(s[i..a]) && !IsSpace(CharAt(s, a))
    ensures SkipSpaces(s, i) == a
    decreases a - i
  {
    if i < a {
      assert s[i] == s[i..a][0] && s[i + 1..a] == s[i..a][1..];
      SpacesSkip(s, i + 1, a);
    }
  }

  lemma {:induction false} SkippedSpaces(s: string, i: nat)
    requires i <= |s|
    ensures var a := SkipSpaces(s, i); a <= |s| && AllSpaces(s[i..a]) && !IsSpace(CharAt(s, a))
    decreases |s| - i
  {
    if i < |s| && IsSpace(s[i]) {
      SkippedSpaces(s, i + 1);
      assert s[i..SkipSpaces(s, i)] == [s[i]] + s[i + 1..SkipSpaces(s, i)];
    }
  }

  lemma {:induction false} SkippedDigits(s: string, i: nat)
    requires i <= |s|
    ensures !IsDigit(CharAt(s, SkipDigits(s, i)))
    decreases |s| - i
  {
    if i < |s| && IsDigit(s[i]) {
      SkippedDigits(s, i + 1);
    }
  }

  /** The first character after the spaces, and the first after the sign. */
  lemma FirstCharacters(s: string, a: nat, c: nat, e: nat, f: nat, plus: bool, signs: Signs)
    requires Reads(s, a, c, e, f, plus, signs)
    ensures c < f ==> CharAt(s, c) == '.' || IsDigit(CharAt(s, c))
    ensures !IsSpace(CharAt(s, a))
  {
    if c < e {
      assert s[c] == s[c..e][0];
    }
    if a < c {
      assert s[a] == s[a..c][0];
    }
  }

  /** The parts are where the scanner looks for them. */
  lemma ReadingIsScan(s: string, a: nat, c: nat, e: nat, f: nat, plus: bool, signs: Signs)
    requires Reads(s, a, c, e, f, plus, signs)
    ensures a == SkipSpaces(s, 0) && e == SkipDigits(s, c) && (e < f ==> f == SkipDigits(s, e + 1))
    ensures c < f ==> c == NumberStart(s, plus)
  {
    FirstCharacters(s, a, c, e, f, plus, signs);
    assert s[0..a] == s[..a];
    SpacesSkip(s, 0, a);
    SkipAll(s, c, e);
    if e < f {
      SkipAll(s, e + 1, f);
    }
    hide SkipSpaces, SkipDigits, AllSpaces, AllDigits, IsSpace;
    SignEnds(s, a, c, plus, signs);
  }

  /** The sign is what the scanner steps over. */
  lemma SignEnds(s: string, a: nat, c: nat, plus: bool, signs: Signs)
    requires a <= c <= |s| && IsSign(s[a..c], plus, signs)
    ensures CharAt(s, c) == '.' || IsDigit(CharAt(s, c)) ==>
              var b := if CharAt(s, a) == '-' then a + 1 else a;
              c == if plus && CharAt(s, b) == '+' then b + 1 else b
    ensures CharAt(s, c) == '.' || IsDigit(CharAt(s, c)) ==> (a < c && s[a] == '-' <==> CharAt(s, a) == '-')
  {
    assert forall k :: a <= k < c ==> s[k] == s[a..c][k - a];
  }

  lemma ParseOfReading(s: string, a: nat, c: nat, e: nat, f: nat, plus: bool, signs: Signs)
    requires Reads(s, a, c, e, f, plus, signs) && c < f
    ensures Parse(s, plus) == Some(Meaning(s, a, c, e, f))
  {
    hide NumberStart, SkipSpaces, SkipDigits, AllSpaces, AllDigits, DigitsOf, IsEnd, IsSign, IsSpace, IsDigit;
    ReadingIsScan(s, a, c, e, f, plus, signs);
    FirstCharacters(s, a, c, e, f, plus, signs);
    NotBoth(CharAt(s, e));
    SignEnds(s, a, c, plus, signs);
  }

  lemma NotBoth(c: char)
    ensures IsEnd(c) ==> c != '.' && !IsDigit(c) && c != '-' && c != '+'
  {
  }

  lemma ReadingOfParse(s: string, plus: bool) returns (a: nat, c: nat, e: nat, f: nat)
    requires Parse(s, plus).Some?
    ensures Reads(s, a, c, e, f, plus, Lenient) && c < f && Parse(s, plus) == Some(Meaning(s, a, c, e, f))
  {
    hide NumberStart, SkipSpaces, SkipDigits, AllSpaces, AllDigits, DigitsOf, IsEnd, IsSign, IsSpace, IsDigit;
    a, c := SkipSpaces(s, 0), NumberStart(s, plus);
    SkippedSpaces(s, 0);
    assert s[..a] == s[0..a];
    SignOfScan(s, a, plus);
    e := SkipDigits(s, c);
    SkippedDigits(s, c);
    NotBoth(CharAt(s, e));
    f := if IsEnd(CharAt(s, e)) then e else SkipDigits(s, e + 1);
  }

  lemma SignOfScan(s: string, a: nat, plus: bool)
    requires a == SkipSpaces(s, 0) && a <= |s|
    ensures var c := NumberStart(s, plus); a <= c <= |s| && IsSign(s[a..c], plus, Lenient)
    ensures (CharAt(s, a) == '-') <==> (a < NumberStart(s, plus) && s[a] == '-')
  {
    hide SkipSpaces;
  }

  /** The scanners accept exactly the texts of the lenient grammar that have a digit or a
      point, and read them as that grammar does. */
  lemma ScannerGrammar(s: string, plus: bool, n: Numeral)
    ensures Parse(s, plus) == Some(n) <==> Accepted(s, plus, n)
  {
    hide Parse, IsSign, IsEnd, IsSpace, AllSpaces, AllDigits, DigitsOf;
    if Parse(s, plus) == Some(n) {
      var a, c, e, f := ReadingOfParse(s, plus);
    }
    if Accepted(s, plus, n) {
      var a, c, e, f :| Reads(s, a, c, e, f, plus, Lenient) && c < f && Meaning(s, a, c, e, f) == n;
      ParseOfReading(s, a, c, e, f, plus, Lenient);
    }
  }

  // ----------------------------------------------------- and how the comment differs

  /** Nothing but spaces and one sign before the end. */
  predicate Blank(s: string, plus: bool)
  {
    var a := SkipSpaces(s, 0);
    IsEnd(CharAt(s, if CharAt(s, a) == '-' || (plus && CharAt(s, a) == '+') then a + 1 else a))
  }

  /** Digits with or without a point, and an end, from c on. */
  predicate NumberAt(s: string, c: nat)
  {
    var e := SkipDigits(s, c);
    && (CharAt(s, c) == '.' || IsDigit(CharAt(s, c)))
    && (IsEnd(CharAt(s, e)) || (CharAt(s, e) == '.' && IsEnd(CharAt(s, SkipDigits(s, e + 1)))))
  }

  /** A number after both signs. */
  predicate MinusPlus(s: string)
  {
    var a := SkipSpaces(s, 0);
    CharAt(s, a) == '-' && CharAt(s, a + 1) == '+' && NumberAt(s, a + 2)
  }

  /** Code and comment agree on a text, reading by reading, if and only if it is neither
      blank nor a number after a minus and a plus sign. */
  lemma CommentHolds(s: string, plus: bool)
    ensures (forall n :: Parse(s, plus) == Some(n) <==> Documented(s, plus, n))
       <==> !Blank(s, plus) && !(plus && MinusPlus(s))
  {
    hide Parse, Documented, Blank, MinusPlus;
    if Blank(s, plus) {
      BlankRefused(s, plus);
    } else if plus && MinusPlus(s) {
      MinusPlusTaken(s);
    } else {
      forall n
        ensures Parse(s, plus) == Some(n) <==> Documented(s, plus, n)
      {
        SameReading(s, plus, n);
      }
    }
  }

  /** A blank text fits the comment and is refused. */
  lemma BlankRefused(s: string, plus: bool)
    requires Blank(s, plus)
    ensures Parse(s, plus) == None && exists n :: Documented(s, plus, n)
  {
    SkippedSpaces(s, 0);
    var a := SkipSpaces(s, 0);
    NotBoth(CharAt(s, a));
    NotBoth(CharAt(s, a + 1));
    var c := if CharAt(s, a) == '-' || (plus && CharAt(s, a) == '+') then a + 1 else a;
    assert s[..a] == s[0..a] && s[c..c] == "";
    hide SkipSpaces, SkipDigits, AllSpaces;
    assert Reads(s, a, c, c, c, plus, Commented);
    assert Documented(s, plus, Meaning(s, a, c, c, c));
  }

  /** A number after both signs is read, and does not fit the comment. */
  lemma MinusPlusTaken(s: string)
    requires MinusPlus(s)
    ensures Parse(s, true).Some? && forall n :: !Documented(s, true, n)
  {
    SkippedSpaces(s, 0);
    forall a, c, e, f
      ensures !Reads(s, a, c, e, f, true, Commented)
    {
      if Reads(s, a, c, e, f, true, Commented) {
        OneSign(s, a, c, e, f);
      }
    }
    hide SkipSpaces, SkipDigits, Reads;
  }

  lemma OneSign(s: string, a: nat, c: nat, e: nat, f: nat)
    requires Reads(s, a, c, e, f, true, Commented)
    ensures !MinusPlus(s)
  {
    ReadingIsScan(s, a, c, e, f, true, Commented);
    SignEnds(s, a, c, true, Commented);
    FirstCharacters(s, a, c, e, f, true, Commented);
    NotBoth(CharAt(s, c));
    assert forall k :: a <= k < c ==> s[k] == s[a..c][k - a];
    hide SkipSpaces, SkipDigits, AllSpaces, AllDigits, IsSpace, IsEnd, NumberAt;
  }

  lemma SameReading(s: string, plus: bool, n: Numeral)
    requires !Blank(s, plus) && !(plus && MinusPlus(s))
    ensures Parse(s, plus) == Some(n) <==> Documented(s, plus, n)
  {
    hide Parse, Blank, MinusPlus, IsSign, IsEnd, IsSpace, AllSpaces, AllDigits, DigitsOf;
    if Parse(s, plus) == Some(n) {
      var a, c, e, f := ReadingOfParse(s, plus);
      CommentedReading(s, a, c, e, f, plus);
    }
    if Documented(s, plus, n) {
      var a, c, e, f :| Reads(s, a, c, e, f, plus, Commented) && Meaning(s, a, c, e, f) == n;
      NotBlank(s, a, c, e, f, plus);
      ParseOfReading(s, a, c, e, f, plus, Commented);
    }
  }

  lemma CommentedReading(s: string, a: nat, c: nat, e: nat, f: nat, plus: bool)
    requires Reads(s, a, c, e, f, plus, Lenient) && c < f && !(plus && MinusPlus(s))
    ensures Reads(s, a, c, e, f, plus, Commented)
  {
    hide SkipSpaces, SkipDigits, AllSpaces, AllDigits, IsSpace, IsEnd, IsDigit;
    ReadingIsScan(s, a, c, e, f, plus, Lenient);
    FirstCharacters(s, a, c, e, f, plus, Lenient);
  }

  lemma NotBlank(s: string, a: nat, c: nat, e: nat, f: nat, plus: bool)
    requires Reads(s, a, c, e, f, plus, Commented) && !Blank(s, plus)
    ensures c < f
  {
    ReadingIsScan(s, a, c, e, f, plus, Commented);
    NotBoth(CharAt(s, c));
    assert forall k :: a <= k < c ==> s[k] == s[a..c][k - a];
    hide SkipSpaces, SkipDigits, AllSpaces, AllDigits, IsSpace, IsEnd;
  }

  /** The smallest witnesses of both kinds. */
  lemma Disagreements()
    ensures Parse("-+1", true) == Some(Numeral(true, [1], [])) && forall n :: !Documented("-+1", true, n)
    ensures Parse("", true) == None && Documented("", true, Numeral(false, [], []))
  {
    assert Reads("-+1", 0, 2, 3, 3, true, Lenient) by {
      assert "-+1"[0..2] == "-+" && "-+1"[2..3] == "1";
    }
    ParseOfReading("-+1", 0, 2, 3, 3, true, Lenient);
    assert DigitsOf("-+1"[2..3]) == [1];
    assert SkipDigits("-+1", 2) == 3;
    MinusPlusTaken("-+1");
    BlankRefused("", true);
    assert Reads("", 0, 0, 0, 0, true, Commented);
    assert Meaning("", 0, 0, 0, 0) == Numeral(false, [], []);
  }

  // --------------------------------------------------------- the room mstolfp takes

  /** The longest number at the start of a text, whatever comes after it: spaces before a,
      a minus sign or nothing in a..c, digits in c..e, and in e..f a point with digits or
      nothing. */
  predicate LongestNumber(s: string, a: nat, c: nat, e: nat, f: nat)
  {
    && a <= c <= e <= f <= |s|
    && AllSpaces(s[..a]) && !IsSpace(CharAt(s, a))
    && s[a..c] == (if CharAt(s, a) == '-' then "-" else "")
    && AllDigits(s[c..e]) && !IsDigit(CharAt(s, e))
    && (CharAt(s, e) == '.' <==> e < f)
    && (e < f ==> AllDigits(s[e + 1..f]) && !IsDigit(CharAt(s, f)))
  }

  /** Every text starts with one, possibly empty. */
  lemma NumberFound(s: string) returns (a: nat, c: nat, e: nat, f: nat)
    ensures LongestNumber(s, a, c, e, f)
  {
    SkippedSpaces(s, 0);
    a := SkipSpaces(s, 0);
    assert s[..a] == s[0..a];
    c := if CharAt(s, a) == '-' then a + 1 else a;
    SkippedDigits(s, c);
    e := SkipDigits(s, c);
    f := e;
    if CharAt(s, e) == '.' {
      SkippedDigits(s, e + 1);
      f := SkipDigits(s, e + 1);
    }
    hide SkipSpaces, SkipDigits, AllSpaces, AllDigits, IsSpace;
  }

  /** For any text, taken or refused: the buffer suffices if and only if that number is
      empty, or its sign, its integral digits, counted as at least four, and its fraction
      digits are 98 characters or fewer. */
  lemma RoomNeeded(s: string, a: nat, c: nat, e: nat, f: nat)
    requires LongestNumber(s, a, c, e, f)
    ensures BufferNeed(s) <= BUFFER <==>
            c == f || (c - a) + (if e - c > 4 then e - c else 4) + (if e < f then f - e - 1 else 0) <= 98
  {
    hide LongestNumber, SkipSpaces, SkipDigits, IsDigit;
    NumberScanned(s, a, c, e, f);
  }

  lemma NumberScanned(s: string, a: nat, c: nat, e: nat, f: nat)
    requires LongestNumber(s, a, c, e, f)
    ensures a == SkipSpaces(s, 0) && c - a == (if CharAt(s, a) == '-' then 1 else 0)
    ensures e == SkipDigits(s, c) && (CharAt(s, e) == '.' <==> e < f) && (e < f ==> f == SkipDigits(s, e + 1))
    ensures c <= e <= f && (c < e <==> IsDigit(CharAt(s, c)))
  {
    hide SkipSpaces, SkipDigits, IsSpace;
    assert s[0..a] == s[..a];
    SpacesSkip(s, 0, a);
    SkipAll(s, c, e);
    if e < f {
      SkipAll(s, e + 1, f);
    }
    assert |s[a..c]| == c - a;
    assert c < e ==> s[c] == s[c..e][0];
  }

  /** A refused text that does not fit. */
  lemma RefusedToo(s: string)
    requires AllDigits(s) && s != ""
    ensures Parse(s + "x", false) == None && (BufferNeed(s + "x") <= BUFFER <==> |s| <= 98)
  {
    var t := s + "x";
    assert t[0..|s|] == s && t[0] == s[0];
    SkipAll(t, 0, |s|);
    assert SkipSpaces(t, 0) == 0;
    hide SkipDigits, SkipSpaces, AllDigits;
  }
}
