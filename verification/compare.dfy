/** Where the browser checks of contact.js and the server rules of Validator.php agree and
    where they part: the same input can pass one side and fail the other. */
module ClientServer {
  import opened Wrappers
  import opened Chars
  import opened Decimal
  import V = Validator
  import C = ContactForm

  /** PHP's `$` lets one final line feed through; JavaScript's does not. */
  lemma PostalLineFeedOnlyServer(p: string)
    requires PostalShape(p)
    ensures V.PostalCheck(Some(p + "\n")).None?
    ensures !PostalShape(p + "\n")
  {
    assert (p + "\n")[..|p + "\n"| - 1] == p;
  }

  /** A number the browser accepts also has the server's shape when it starts with 0. */
  lemma ClientTelWithLeadingZeroPassesServer(s: string)
    requires C.ValidateTel(s) && s[0] == '0'
    ensures V.TelCheck(Some(s)).None?
  {
    var i, j :| && 0 < i < j < |s| && s[i] == '-' && s[j] == '-'
                && DigitRun(s[..i], 2, 4) && DigitRun(s[i + 1..j], 2, 4) && DigitRun(s[j + 1..], 3, 4);
    assert forall c :: c in s[1..i] ==> c in s[..i];
    assert DigitRun(s[1..i], 1, 4);
    assert V.ServerTelShape(s);
  }

  /** A number the browser accepts is digits and '-' only, and starts and ends with a digit. */
  lemma ClientTelChars(s: string)
    requires C.ClientTelShape(s)
    ensures forall c :: c in s ==> IsAsciiDigit(c) || c == '-'
    ensures IsAsciiDigit(s[0]) && IsAsciiDigit(s[|s| - 1])
  {
    var i, j :| && 0 < i < j < |s| && s[i] == '-' && s[j] == '-'
                && DigitRun(s[..i], 2, 4) && DigitRun(s[i + 1..j], 2, 4) && DigitRun(s[j + 1..], 3, 4);
    forall k | 0 <= k < |s| ensures IsAsciiDigit(s[k]) || s[k] == '-' {
      if k < i {
        GroupDigit(s[..i], k);
      } else if i < k < j {
        GroupDigit(s[i + 1..j], k - i - 1);
      } else if j < k {
        GroupDigit(s[j + 1..], k - j - 1);
      }
    }
    GroupDigit(s[..i], 0);
    GroupDigit(s[j + 1..], |s| - j - 2);
  }

  lemma GroupDigit(t: string, k: nat)
    requires AllDigits(t) && k < |t|
    ensures IsAsciiDigit(t[k])
  {
    assert t[k] in t;
  }

  /** The browser does not demand the leading 0 the server does. */
  lemma ClientTelWithoutLeadingZeroFailsServer(s: string)
    requires C.ValidateTel(s) && s[0] != '0'
    ensures V.TelCheck(Some(s)) == Some(V.TelFormat)
  {
    ClientTelChars(s);
    V.TelShapeAccepts(Some(s));
    assert s[0] in s;
    assert !V.ServerTelShape(s);
  }

  /** A middle group of one digit passes the server but not the browser. */
  lemma ShortMiddleGroupOnlyServer(a: string, b: char, d: string)
    requires |a| == 3 && AllDigits(a) && IsAsciiDigit(b) && |d| == 3 && AllDigits(d)
    ensures V.ServerTelShape("0" + a + "-" + [b] + "-" + d)
    ensures !C.ValidateTel("0" + a + "-" + [b] + "-" + d)
  {
    var s := "0" + a + "-" + [b] + "-" + d;
    assert s[1..4] == a && s[5..6] == [b] && s[7..] == d;
    assert s[0] == '0' && s[4] == '-' && s[6] == '-';
    assert DigitRun(s[1..4], 1, 4) && DigitRun(s[4 + 1..6], 1, 4) && DigitRun(s[6 + 1..], 3, 4);
    if C.ClientTelShape(s) {
      var i, j :| && 0 < i < j < |s| && s[i] == '-' && s[j] == '-'
                  && DigitRun(s[..i], 2, 4) && DigitRun(s[i + 1..j], 2, 4) && DigitRun(s[j + 1..], 3, 4);
      DashPositions(s, a, b, d, i);
      DashPositions(s, a, b, d, j);
      assert false;
    }
  }

  lemma DashPositions(s: string, a: string, b: char, d: string, k: int)
    requires s == "0" + a + "-" + [b] + "-" + d
    requires |a| == 3 && AllDigits(a) && IsAsciiDigit(b) && |d| == 3 && AllDigits(d)
    requires 0 <= k < |s| && s[k] == '-'
    ensures k == 4 || k == 6
  {
    assert s[0] == '0' && s[5] == b;
    assert forall m :: 1 <= m < 4 ==> s[m] == a[m - 1] && a[m - 1] in a;
    assert forall m :: 7 <= m < 10 ==> s[m] == d[m - 7] && d[m - 7] in d;
  }

  /** For hiragana input the two sides differ only in the server's limit of 20 characters. */
  lemma KanaRulesAgreeUpToLength(s: string)
    requires C.ValidateKana(s)
    ensures V.KanaCheck(Some(s)).None? <==> |s| <= 20
  {
    V.KanaCheckAccepts(Some(s));
    assert s[0] in s && s[|s| - 1] in s;
  }

  /** Without spaces, kana the server accepts also passes the browser. */
  lemma ServerKanaWithoutSpacesPassesClient(s: string)
    requires V.KanaCheck(Some(s)).None?
    requires forall c :: c in s ==> !IsUnicodeSpace(c)
    ensures C.ValidateKana(s)
  {
    V.KanaCheckAccepts(Some(s));
  }

  /** On a name the browser accepts, the server agrees exactly when the name neither starts nor
      ends with U+3000 and the script oracle accepts every character other than ー and U+3000. */
  lemma ClientNameOnServer(s: string, o: V.Oracles)
    requires C.ValidateName(s)
    ensures V.NameCheck(Some(s), o).None? <==>
              && s[0] != IDEOGRAPHIC_SPACE && s[|s| - 1] != IDEOGRAPHIC_SPACE
              && forall c :: c in s && c != LONG_VOWEL_MARK && c != IDEOGRAPHIC_SPACE ==> o.isJapaneseScript(c)
  {
    V.NameCheckAccepts(Some(s), o);
    assert s[0] in s && s[|s| - 1] in s;
    assert s != "0";
  }

  /** A name the server accepts passes the browser when it has at least two characters, all
      in the browser's blocks: the server's limit of 20 covers the browser's. */
  lemma ServerNameInClientBlocksPassesClient(s: string, o: V.Oracles)
    requires V.NameCheck(Some(s), o).None?
    requires |s| >= 2 && forall c :: c in s ==> C.IsClientNameChar(c)
    ensures C.ValidateName(s)
  {
    V.NameCheckAccepts(Some(s), o);
  }

  /** A name the browser accepts can still start with the ideographic space, which the server refuses. */
  lemma ClientNameWithLeadingSpaceFailsServer(s: string, o: V.Oracles)
    requires C.ValidateName(s) && s[0] == IDEOGRAPHIC_SPACE
    ensures V.NameCheck(Some(s), o) == Some(V.NameEdgeSpace)
  {
    assert s != "0";
  }

  /** The server accepts "image/jpg" for a document; the browser does not. */
  lemma JpgOnlyServer(error: int)
    requires error != V.UPLOAD_ERR_NO_FILE
    ensures !V.DocumentRefused(Some(V.Upload(error, "image/jpg")))
    ensures C.DocumentRefused(Some("image/jpg"))
  {
    assert "image/jpg" != "image/png" && "image/jpg" != "image/jpeg";
  }

  /** The two sides agree on the other declared types. */
  lemma DocumentTypesAgreeOtherwise(error: int, t: string)
    requires error != V.UPLOAD_ERR_NO_FILE && t != "image/jpg"
    ensures V.DocumentRefused(Some(V.Upload(error, t))) <==> C.DocumentRefused(Some(t))
  {
  }

  /** The server's empty() treats "0" as missing; the browser checks only for "". */
  lemma ZeroIsMissingOnlyOnServer(d: V.Submission, f: C.ClientForm)
    requires d.prefecture == Some("0") && f.prefecture == Some("0")
    ensures V.AddressCheck(d) == Some(V.AddressRequired)
    ensures C.Missing(C.RPrefecture) !in C.SubmitErrors(f)
  {
  }
}
