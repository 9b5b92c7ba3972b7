/** The address normaliser of UserAddress::normalizeAddress: a fixed pipeline of five rewrites
    that makes differently typed but equal addresses compare equal. */
module Normalization {
  import opened Wrappers
  import opened Chars
  import opened Strings
  import opened Decimal

  /** Step 1, mb_convert_kana with mode `n`: full-width digits become ASCII digits of the same value. */
  function FoldDigits(s: string): (r: string)
    ensures |r| == |s|
    ensures forall c :: c in r ==> !IsFullWidthDigit(c)
    ensures forall i :: 0 <= i < |s| && !IsFullWidthDigit(s[i]) ==> r[i] == s[i]
    ensures forall i :: 0 <= i < |s| && IsFullWidthDigit(s[i]) ==>
              IsAsciiDigit(r[i]) && r[i] as int - '0' as int == s[i] as int - '\U{FF10}' as int
  {
    MapChars(HalfWidthDigit, s)
  }

  /** Step 2, the pattern `[　\s]` under the `u` modifier: every Unicode space is deleted. */
  function StripSpaces(s: string): (r: string)
    ensures forall c :: c in r <==> c in s && !IsUnicodeSpace(c)
  {
    Filter(c => !IsUnicodeSpace(c), s)
  }

  /** Step 2 keeps order: around any one character the rest is stripped independently, and that
      character survives exactly when it is not a space. */
  lemma StripSpacesSplit(a: string, x: char, b: string)
    ensures StripSpaces(a + [x] + b) == StripSpaces(a) + (if IsUnicodeSpace(x) then [] else [x]) + StripSpaces(b)
  {
    StripSpacesAppend(a + [x], b);
    StripSpacesAppend(a, [x]);
    StripSpacesOne(x);
  }

  lemma StripSpacesAppend(a: string, b: string)
    ensures StripSpaces(a + b) == StripSpaces(a) + StripSpaces(b)
  {
    FilterAppend(c => !IsUnicodeSpace(c), a, b);
  }

  lemma StripSpacesOne(x: char)
    ensures StripSpaces([x]) == (if IsUnicodeSpace(x) then [] else [x])
  {
    assert [x][1..] == [];
  }

  /** Step 3: ー, ― and － each become an ASCII hyphen. */
  function UnifyHyphens(s: string): (r: string)
    ensures |r| == |s|
    ensures forall i :: 0 <= i < |s| ==> (r[i] == '-' <==> s[i] == '-' || IsHyphenLike(s[i]))
    ensures forall i :: 0 <= i < |s| && !IsHyphenLike(s[i]) ==> r[i] == s[i]
    ensures forall c :: c in r ==> c == '-' || (c in s && !IsHyphenLike(c))
  {
    var r := MapChars(c => if IsHyphenLike(c) then '-' else c, s);
    assert forall c :: c in r ==> exists i :: 0 <= i < |s| && r[i] == c;
    r
  }

  /** No full-width opening parenthesis is followed, anywhere later, by a closing one. */
  predicate NoBracketPair(s: string) {
    forall i, j :: 0 <= i < j < |s| && s[i] == FULLWIDTH_OPEN ==> s[j] != FULLWIDTH_CLOSE
  }

  lemma NoBracketPairJoin(p: string, t: string)
    requires NoBracketPair(p) && NoBracketPair(t)
    requires FULLWIDTH_OPEN !in p || FULLWIDTH_CLOSE !in t
    ensures NoBracketPair(p + t)
  {
    var s := p + t;
    forall i, j | 0 <= i < j < |s| && s[i] == FULLWIDTH_OPEN
      ensures s[j] != FULLWIDTH_CLOSE
    {
      if i < |p| && j >= |p| {
        assert s[i] == p[i] && s[j] == t[j - |p|];
      } else if i >= |p| {
        assert s[i] == t[i - |p|] && s[j] == t[j - |p|];
      } else {
        assert s[i] == p[i] && s[j] == p[j];
      }
    }
  }

  lemma OccursAtSingle(h: string, c: char, k: nat)
    ensures OccursAt(h, [c], k) <==> k < |h| && h[k] == c
  {
    if k < |h| {
      assert h[k..k + 1] == [h[k]];
    }
  }

  /** Step 4, the pattern `（.*?）`: scanning left to right, each full-width opening parenthesis
      that has a closing one after it is deleted together with everything up to the first such
      closing parenthesis. An opening parenthesis with no closing one after it stays.
      The pattern's `.` does not match a line feed, while this function removes spans holding
      one; the two agree on the text the pipeline hands over, since step 2 has already deleted
      every line feed (and every other `\s`). */
  function StripParens(s: string): (r: string)
    ensures forall c :: c in r ==> c in s
    ensures NoBracketPair(r)
    ensures NoBracketPair(s) ==> r == s
    decreases |s|
  {
    if s == [] then []
    else if s[0] == FULLWIDTH_OPEN then
      match StrPos(s[1..], [FULLWIDTH_CLOSE])
      case Some(k) =>
        OccursAtSingle(s[1..], FULLWIDTH_CLOSE, k);
        assert s[k + 1] == FULLWIDTH_CLOSE;
        var r := StripParens(s[k + 2..]);
        assert forall c :: c in r ==> c in s[k + 2..];
        r
      case None =>
        assert forall i :: 0 <= i < |s[1..]| ==> s[1..][i] != FULLWIDTH_CLOSE by {
          forall i | 0 <= i < |s[1..]| { OccursAtSingle(s[1..], FULLWIDTH_CLOSE, i); }
        }
        var t := StripParens(s[1..]);
        assert forall c :: c in t ==> c in s[1..];
        NoBracketPairJoin([s[0]], t);
        assert NoBracketPair(s) ==> NoBracketPair(s[1..]);
        [s[0]] + t
    else
      var t := StripParens(s[1..]);
      assert forall c :: c in t ==> c in s[1..];
      NoBracketPairJoin([s[0]], t);
      assert NoBracketPair(s) ==> NoBracketPair(s[1..]);
      [s[0]] + t
  }

  /** The digits that replace one kanji numeral, as in the replacement table of step 5. */
  function NumeralDigits(c: char): (r: string)
    ensures !IsKanjiNumeral(c) ==> r == [c]
    ensures IsKanjiNumeral(c) ==> AllDigits(r) && 1 <= |r| <= 2
  {
    match c
    case '一' => "1"
    case '二' => "2"
    case '三' => "3"
    case '四' => "4"
    case '五' => "5"
    case '六' => "6"
    case '七' => "7"
    case '八' => "8"
    case '九' => "9"
    case '十' => "10"
    case _ => [c]
  }

  /** Step 5: each of 一 … 十 is replaced by its decimal digits, one character at a time. */
  function ExpandNumerals(s: string): (r: string)
    ensures forall c :: c in r ==> !IsKanjiNumeral(c)
    ensures forall c :: c in r ==> IsAsciiDigit(c) || c in s
    ensures forall c :: c in s && !IsKanjiNumeral(c) ==> c in r
    ensures (forall c :: c in s ==> !IsKanjiNumeral(c)) ==> r == s
  {
    if s == [] then []
    else
      var t := ExpandNumerals(s[1..]);
      assert forall c :: c in s[1..] ==> c in s;
      assert s == [s[0]] + s[1..];
      NumeralDigits(s[0]) + t
  }

  /** The normal form of an address string: the five steps in source order. */
  function NormalizeAddress(s: string): (r: string)
    ensures IsNormal(r)
  {
    var d := StripParens(EarlySteps(s));
    LateStepsNormal(d);
    ExpandNumerals(d)
  }

  lemma LateStepsNormal(d: string)
    requires NoBracketPair(d)
    requires forall c :: c in d ==> !IsFullWidthDigit(c) && !IsUnicodeSpace(c) && !IsHyphenLike(c)
    ensures IsNormal(ExpandNumerals(d))
  {
    ExpandKeepsNoBracketPair(d);
    forall c | c in ExpandNumerals(d)
      ensures !IsFullWidthDigit(c) && !IsUnicodeSpace(c) && !IsHyphenLike(c)
    {
      if c !in d {
        assert IsAsciiDigit(c);
      }
    }
  }

  /** Steps 1 to 3, which rewrite or delete single characters. */
  function EarlySteps(s: string): (r: string)
    ensures forall c :: c in r ==> !IsFullWidthDigit(c) && !IsUnicodeSpace(c) && !IsHyphenLike(c)
    ensures forall c :: c in r ==> c == '-' || c in FoldDigits(s)
  {
    UnifyHyphens(StripSpaces(FoldDigits(s)))
  }

  /** What no normal form contains. */
  predicate IsNormal(s: string) {
    && (forall c :: c in s ==> !IsFullWidthDigit(c) && !IsUnicodeSpace(c) && !IsHyphenLike(c) && !IsKanjiNumeral(c))
    && NoBracketPair(s)
  }

  lemma {:induction false} ExpandKeepsNoBracketPair(s: string)
    requires NoBracketPair(s)
    ensures NoBracketPair(ExpandNumerals(s))
  {
    if s != [] {
      var head, tail := NumeralDigits(s[0]), ExpandNumerals(s[1..]);
      assert NoBracketPair(s[1..]);
      ExpandKeepsNoBracketPair(s[1..]);
      if s[0] == FULLWIDTH_OPEN {
        assert FULLWIDTH_CLOSE !in s[1..];
      }
      NoBracketPairJoin(head, tail);
    }
  }

  /** A normal form is its own normal form: no step has anything left to rewrite. */
  lemma NormalIsFixed(s: string)
    requires IsNormal(s)
    ensures NormalizeAddress(s) == s
  {
    assert EarlySteps(s) == s by {
      assert FoldDigits(s) == s;
      FilterKeepsAll(c => !IsUnicodeSpace(c), s);
      assert StripSpaces(s) == s;
      assert UnifyHyphens(s) == s;
    }
  }

  /** normalize(normalize(x)) == normalize(x). */
  lemma NormalizeIdempotent(s: string)
    ensures NormalizeAddress(NormalizeAddress(s)) == NormalizeAddress(s)
  {
    NormalIsFixed(NormalizeAddress(s));
  }

  /** 一 … 十 are replaced by the numerals 1 … 10 in order, without leading zeros. */
  lemma NumeralValues()
    ensures forall i :: 0 <= i < |KANJI_NUMERALS| ==>
              && DecimalValue(NumeralDigits(KANJI_NUMERALS[i])) == i + 1
              && NumeralDigits(KANJI_NUMERALS[i])[0] != '0'
  {
    assert NumeralDigits(KANJI_NUMERALS[9]) == "10";
    assert DecimalValue("1") == 1;
  }

  /** A run of kanji numerals is only expanded, one numeral at a time: 十一 becomes 101, not 11. */
  lemma NumeralRunExpands(ten: char, one: char)
    requires IsKanjiNumeral(ten) && IsKanjiNumeral(one)
    ensures NormalizeAddress([ten, one]) == NumeralDigits(ten) + NumeralDigits(one)
  {
    KanjiNumeralIsPlain(ten);
    KanjiNumeralIsPlain(one);
    PairSurvivesEarlySteps(ten, one);
    PairHasNoParens(ten, one);
    PairExpands(ten, one);
    NormalizeUntouchedByEarlySteps([ten, one], NumeralDigits(ten) + NumeralDigits(one));
  }

  /** A kanji numeral is neither a digit, a space, a hyphen nor a bracket. */
  lemma KanjiNumeralIsPlain(c: char)
    requires IsKanjiNumeral(c)
    ensures !IsFullWidthDigit(c) && !IsUnicodeSpace(c) && !IsHyphenLike(c) && c != FULLWIDTH_OPEN
  {
  }

  lemma PairSurvivesEarlySteps(ten: char, one: char)
    requires !IsFullWidthDigit(ten) && !IsUnicodeSpace(ten) && !IsHyphenLike(ten)
    requires !IsFullWidthDigit(one) && !IsUnicodeSpace(one) && !IsHyphenLike(one)
    ensures EarlySteps([ten, one]) == [ten, one]
  {
    var s := [ten, one];
    assert s == [ten] + [one];
    assert EarlySteps(s) == s by {
      EarlyStepsKeep(ten);
      EarlyStepsKeep(one);
      EarlyStepsAppend([ten], [one]);
    }
  }

  lemma PairHasNoParens(ten: char, one: char)
    requires ten != FULLWIDTH_OPEN && one != FULLWIDTH_OPEN
    ensures StripParens([ten, one]) == [ten, one]
  {
    StripParensKeepsPrefix([ten, one], []);
    assert [ten, one] + [] == [ten, one];
  }

  lemma PairExpands(ten: char, one: char)
    ensures ExpandNumerals([ten, one]) == NumeralDigits(ten) + NumeralDigits(one)
  {
    assert [ten, one] == [ten] + [one];
    ExpandNumeralsAppend([ten], [one]);
    ExpandSingle(ten);
    ExpandSingle(one);
  }

  lemma NormalizeUntouchedByEarlySteps(s: string, x: string)
    requires EarlySteps(s) == s && StripParens(s) == s && ExpandNumerals(s) == x
    ensures NormalizeAddress(s) == x
  {
  }

  lemma ExpandSingle(c: char)
    ensures ExpandNumerals([c]) == NumeralDigits(c)
  {
    assert [c][1..] == [];
  }

  lemma ElevenBecomesOneHundredOne(s: string)
    requires s == "十一"
    ensures NormalizeAddress(s) == "101"
  {
    NumeralRunExpands(s[0], s[1]);
    assert [s[0], s[1]] == s;
  }

  lemma {:induction false} ExpandNumeralsAppend(a: string, b: string)
    ensures ExpandNumerals(a + b) == ExpandNumerals(a) + ExpandNumerals(b)
  {
    if a != [] {
      assert (a + b)[1..] == a[1..] + b;
      ExpandNumeralsAppend(a[1..], b);
    } else {
      assert a + b == b;
    }
  }

  /** Text in front of the first opening parenthesis is kept as it is. */
  lemma {:induction false} StripParensKeepsPrefix(p: string, t: string)
    requires FULLWIDTH_OPEN !in p
    ensures StripParens(p + t) == p + StripParens(t)
  {
    if p != [] {
      PlainHeadOfJoin(p, t);
      StripParensKeepsPrefix(p[1..], t);
      ConsJoin(p, StripParens(t));
    } else {
      assert p + t == t;
    }
  }

  lemma PlainHeadOfJoin(p: string, t: string)
    requires p != [] && FULLWIDTH_OPEN !in p
    ensures FULLWIDTH_OPEN !in p[1..]
    ensures StripParens(p + t) == [p[0]] + StripParens(p[1..] + t)
  {
    assert p[0] in p;
    assert forall c :: c in p[1..] ==> c in p;
    assert (p + t)[0] == p[0] && (p + t)[1..] == p[1..] + t;
    StripParensPlainHead(p + t);
  }

  lemma ConsJoin(p: string, x: string)
    requires p != []
    ensures [p[0]] + (p[1..] + x) == p + x
  {
    assert [p[0]] + p[1..] == p;
  }

  lemma StripParensPlainHead(s: string)
    requires s != [] && s[0] != FULLWIDTH_OPEN
    ensures StripParens(s) == [s[0]] + StripParens(s[1..])
  {
  }

  /** An opening parenthesis, the text up to the first closing parenthesis after it,
      and that closing parenthesis all disappear. */
  lemma StripParensDropsSpan(m: string, t: string)
    requires FULLWIDTH_CLOSE !in m
    ensures StripParens([FULLWIDTH_OPEN] + m + [FULLWIDTH_CLOSE] + t) == StripParens(t)
  {
    var s := [FULLWIDTH_OPEN] + m + [FULLWIDTH_CLOSE] + t;
    assert s[1..] == m + [FULLWIDTH_CLOSE] + t;
    OccursAtSingle(s[1..], FULLWIDTH_CLOSE, |m|);
    forall k | 0 <= k < |m|
      ensures !OccursAt(s[1..], [FULLWIDTH_CLOSE], k)
    {
      OccursAtSingle(s[1..], FULLWIDTH_CLOSE, k);
      assert s[1..][k] == m[k];
    }
    assert StrPos(s[1..], [FULLWIDTH_CLOSE]) == Some(|m|);
    assert s[|m| + 2..] == t;
  }

  /** A character that none of the five steps touches. */
  predicate IsPlain(c: char) {
    !IsFullWidthDigit(c) && !IsUnicodeSpace(c) && !IsHyphenLike(c) && c != FULLWIDTH_OPEN && !IsKanjiNumeral(c)
  }

  /** Characters that no step names pass through unchanged and in order. */
  lemma NormalizeKeepsPlainPrefix(p: string, t: string)
    requires forall c :: c in p ==> IsPlain(c)
    ensures NormalizeAddress(p + t) == p + NormalizeAddress(t)
  {
    var a := FoldDigits(t);
    FoldKeepsPlainPrefix(p, t);
    var b := StripSpaces(a);
    StripSpacesKeepsPlainPrefix(p, a);
    var c := UnifyHyphens(b);
    UnifyKeepsPlainPrefix(p, b);
    StripParensKeepsPrefix(p, c);
    ExpandNumeralsAppend(p, StripParens(c));
  }

  lemma FoldKeepsPlainPrefix(p: string, t: string)
    requires forall c :: c in p ==> IsPlain(c)
    ensures FoldDigits(p + t) == p + FoldDigits(t)
  {
    MapCharsAppend(HalfWidthDigit, p, t);
    forall i | 0 <= i < |p| ensures FoldDigits(p)[i] == p[i] {
      assert p[i] in p;
    }
  }

  lemma StripSpacesKeepsPlainPrefix(p: string, t: string)
    requires forall c :: c in p ==> IsPlain(c)
    ensures StripSpaces(p + t) == p + StripSpaces(t)
  {
    FilterAppend(c => !IsUnicodeSpace(c), p, t);
    FilterKeepsAll(c => !IsUnicodeSpace(c), p);
  }

  lemma UnifyKeepsPlainPrefix(p: string, t: string)
    requires forall c :: c in p ==> IsPlain(c)
    ensures UnifyHyphens(p + t) == p + UnifyHyphens(t)
  {
    MapCharsAppend(c => if IsHyphenLike(c) then '-' else c, p, t);
    forall i | 0 <= i < |p| ensures UnifyHyphens(p)[i] == p[i] {
      assert p[i] in p;
    }
  }

  /** Digits typed full-width or half-width give the same normal form. */
  lemma FullWidthDigitsIrrelevant(s: string)
    ensures NormalizeAddress(FoldDigits(s)) == NormalizeAddress(s)
  {
    assert FoldDigits(FoldDigits(s)) == FoldDigits(s);
  }

  lemma FoldAppend(a: string, b: string)
    ensures FoldDigits(a + b) == FoldDigits(a) + FoldDigits(b)
  {
    MapCharsAppend(HalfWidthDigit, a, b);
  }

  lemma UnifyAppend(a: string, b: string)
    ensures UnifyHyphens(a + b) == UnifyHyphens(a) + UnifyHyphens(b)
  {
    MapCharsAppend(c => if IsHyphenLike(c) then '-' else c, a, b);
  }

  /** The first three steps act on each piece of a string separately. */
  lemma EarlyStepsAppend(a: string, b: string)
    ensures EarlySteps(a + b) == EarlySteps(a) + EarlySteps(b)
  {
    FoldAppend(a, b);
    FilterAppend(c => !IsUnicodeSpace(c), FoldDigits(a), FoldDigits(b));
    UnifyAppend(StripSpaces(FoldDigits(a)), StripSpaces(FoldDigits(b)));
  }

  /** A space anywhere in the input leaves the normal form unchanged. */
  lemma NormalizeDropsSpace(a: string, x: char, b: string)
    requires IsUnicodeSpace(x)
    ensures NormalizeAddress(a + [x] + b) == NormalizeAddress(a + b)
  {
    EarlyStepsDropsSpace(a, x, b);
  }

  lemma EarlyStepsDropsSpace(a: string, x: char, b: string)
    requires IsUnicodeSpace(x)
    ensures EarlySteps(a + [x] + b) == EarlySteps(a + b)
  {
    EarlyStepsAppend(a + [x], b);
    EarlyStepsAppend(a, [x]);
    EarlyStepsAppend(a, b);
    EarlyStepsOfSpace(x);
  }

  lemma EarlyStepsOfSpace(x: char)
    requires IsUnicodeSpace(x)
    ensures EarlySteps([x]) == []
  {
    assert FoldDigits([x]) == [x];
    StripSpacesSplit([], x, []);
    assert [] + [x] + [] == [x];
  }

  lemma EarlyStepsKeep(c: char)
    requires !IsFullWidthDigit(c) && !IsUnicodeSpace(c) && !IsHyphenLike(c)
    ensures EarlySteps([c]) == [c]
  {
    assert FoldDigits([c]) == [c];
    assert StripSpaces([c]) == [c] + StripSpaces([]);
  }

  lemma ExpandKeepsChar(c: char)
    requires !IsKanjiNumeral(c)
    ensures ExpandNumerals([c]) == [c]
  {
    assert [c][1..] == [];
  }

  lemma HyphenEarlySteps(h: char)
    requires IsHyphenLike(h)
    ensures EarlySteps([h]) == "-"
  {
    assert FoldDigits([h]) == [h];
    assert StripSpaces([h]) == [h] + StripSpaces([]);
  }

  /** An annotation in full-width parentheses leaves no trace in the normal form, whatever it holds. */
  lemma NormalizeDropsAnnotation(m: string, t: string)
    requires FULLWIDTH_CLOSE !in m
    ensures NormalizeAddress([FULLWIDTH_OPEN] + m + [FULLWIDTH_CLOSE] + t) == NormalizeAddress(t)
  {
    var s := [FULLWIDTH_OPEN] + m + [FULLWIDTH_CLOSE] + t;
    var m3, t3 := EarlySteps(m), EarlySteps(t);
    assert EarlySteps(s) == [FULLWIDTH_OPEN] + m3 + [FULLWIDTH_CLOSE] + t3 by {
      EarlyStepsAppend([FULLWIDTH_OPEN] + m + [FULLWIDTH_CLOSE], t);
      EarlyStepsAppend([FULLWIDTH_OPEN] + m, [FULLWIDTH_CLOSE]);
      EarlyStepsAppend([FULLWIDTH_OPEN], m);
      EarlyStepsKeep(FULLWIDTH_OPEN);
      EarlyStepsKeep(FULLWIDTH_CLOSE);
    }
    assert FULLWIDTH_CLOSE !in m3;
    StripParensDropsSpan(m3, t3);
  }

  /** Each hyphen-like glyph stands for exactly one ASCII hyphen in the normal form. */
  lemma NormalizeUnifiesHyphen(h: char, t: string)
    requires IsHyphenLike(h)
    ensures NormalizeAddress([h] + t) == "-" + NormalizeAddress(t)
  {
    var t3 := EarlySteps(t);
    assert EarlySteps([h] + t) == "-" + t3 by {
      EarlyStepsAppend([h], t);
      HyphenEarlySteps(h);
    }
    var t4 := StripParens(t3);
    assert StripParens("-" + t3) == "-" + t4 by {
      StripParensKeepsPrefix("-", t3);
    }
    assert ExpandNumerals("-" + t4) == "-" + ExpandNumerals(t4) by {
      ExpandNumeralsAppend("-", t4);
      ExpandKeepsChar('-');
    }
  }

  /** Full-width and half-width house numbers normalise alike. */
  lemma FullWidthNumberExample()
    ensures NormalizeAddress("１２３番地") == NormalizeAddress("123番地")
  {
    var s := "１２３番地";
    assert FoldDigits(s) == "123番地";
    FullWidthDigitsIrrelevant(s);
  }
}
