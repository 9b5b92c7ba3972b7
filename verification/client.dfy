/** The browser-side checks of contact.js: the four field predicates and the submit handler's
    decision to block the form. Regular expressions here have no `u` flag, so they run over
    UTF-16 code units; every class they name lies in the Basic Multilingual Plane. */
module ContactForm {
  import opened Wrappers
  import opened Chars
  import opened Strings
  import opened Decimal

  /** Every character of `s` satisfies `p`. */
  predicate AllOf(p: char -> bool, s: string) {
    forall i :: 0 <= i < |s| ==> p(s[i])
  }

  // ---------------------------------------------------------------------------------------
  // validateName

  /** `[぀-ゟ゠-ヿ一-鿿ー　]`: hiragana, katakana and CJK blocks,
      the long vowel mark and the ideographic space. */
  predicate IsClientNameChar(c: char) {
    || ('\U{3040}' <= c <= '\U{309F}')
    || ('\U{30A0}' <= c <= '\U{30FF}')
    || ('\U{4E00}' <= c <= '\U{9FFF}')
    || c == LONG_VOWEL_MARK
    || c == IDEOGRAPHIC_SPACE
  }

  /** validateName: `^([…]{2,20})$` over code units. The class is in the BMP, so each matched
      code unit is one character and the length bound counts characters. What it promises is a
      full-width name: nothing below U+3000 (no ASCII) and nothing above U+9FFF (no half-width
      katakana), with the ideographic space as its only space; any 2 to 20 hiragana pass. */
  predicate ValidateName(s: string)
    ensures ValidateName(s) ==> 2 <= |s| <= 20
    ensures ValidateName(s) ==> forall c :: c in s ==> IDEOGRAPHIC_SPACE <= c <= '\U{9FFF}'
    ensures ValidateName(s) ==> forall c :: c in s && IsUnicodeSpace(c) ==> c == IDEOGRAPHIC_SPACE
    ensures 2 <= |s| <= 20 && (forall c :: c in s ==> IsHiraganaRange(c)) ==> ValidateName(s)
  {
    assert forall i :: 0 <= i < |s| ==> s[i] in s;
    2 <= |s| <= 20 && AllOf(IsClientNameChar, s)
  }

  // ---------------------------------------------------------------------------------------
  // validateKana

  predicate IsClientKanaChar(c: char) {
    IsHiraganaRange(c) || c == LONG_VOWEL_MARK
  }

  /** validateKana: `^[ぁ-んー]+$`, so no space of any kind passes. */
  predicate ValidateKana(s: string)
    ensures ValidateKana(s) <==> s != [] && forall c :: c in s ==> IsHiraganaRange(c) || c == LONG_VOWEL_MARK
    ensures ValidateKana(s) ==> forall c :: c in s ==> !IsUnicodeSpace(c)
  {
    |s| > 0 && AllOf(IsClientKanaChar, s)
  }

  // ---------------------------------------------------------------------------------------
  // validateTel

  /** `^[0-9]{2,4}-[0-9]{2,4}-[0-9]{3,4}$` read as a split of the whole string. */
  predicate ClientTelShape(s: string) {
    exists i, j ::
      && 0 < i < j < |s| && s[i] == '-' && s[j] == '-'
      && DigitRun(s[..i], 2, 4) && DigitRun(s[i + 1..j], 2, 4) && DigitRun(s[j + 1..], 3, 4)
  }

  function IsDash(c: char): bool { c == '-' }

  /** validateTel as a scan: the groups hold no '-', so the separators must be the first two. */
  function ValidateTel(s: string): (r: bool)
    ensures r <==> ClientTelShape(s)
  {
    match FirstWhere(IsDash, s, 0)
    case None => TelNoDash(s); false
    case Some(i) =>
      match FirstWhere(IsDash, s, i + 1)
      case None => TelOneDash(s, i); false
      case Some(j) =>
        TelSplitUnique(s, i, j);
        DigitRun(s[..i], 2, 4) && DigitRun(s[i + 1..j], 2, 4) && DigitRun(s[j + 1..], 3, 4)
  }

  lemma GroupHasNoDash(s: string, lo: nat, hi: nat, k: nat)
    requires DigitRun(s, lo, hi) && k < |s|
    ensures s[k] != '-'
  {
    assert s[k] in s;
  }

  lemma TelNoDash(s: string)
    requires forall k :: 0 <= k < |s| ==> !IsDash(s[k])
    ensures !ClientTelShape(s)
  {
  }

  lemma TelOneDash(s: string, i: nat)
    requires i < |s| && IsDash(s[i])
    requires forall k :: 0 <= k < i ==> !IsDash(s[k])
    requires forall k :: i + 1 <= k < |s| ==> !IsDash(s[k])
    ensures !ClientTelShape(s)
  {
  }

  /** Any split the pattern accepts uses the first and the second '-'. */
  lemma TelSplitUnique(s: string, i: nat, j: nat)
    requires i < j < |s| && IsDash(s[i]) && IsDash(s[j])
    requires forall k :: 0 <= k < i ==> !IsDash(s[k])
    requires forall k :: i + 1 <= k < j ==> !IsDash(s[k])
    ensures ClientTelShape(s) <==>
              DigitRun(s[..i], 2, 4) && DigitRun(s[i + 1..j], 2, 4) && DigitRun(s[j + 1..], 3, 4)
  {
    if ClientTelShape(s) {
      var a, b :| && 0 < a < b < |s| && s[a] == '-' && s[b] == '-'
                  && DigitRun(s[..a], 2, 4) && DigitRun(s[a + 1..b], 2, 4) && DigitRun(s[b + 1..], 3, 4);
      SeparatorsAreFirstTwo(s, i, j, a, b);
    }
  }

  lemma SeparatorsAreFirstTwo(s: string, i: nat, j: nat, a: nat, b: nat)
    requires i < j < |s| && IsDash(s[i]) && IsDash(s[j])
    requires forall k :: 0 <= k < i ==> !IsDash(s[k])
    requires forall k :: i + 1 <= k < j ==> !IsDash(s[k])
    requires 0 < a < b < |s| && s[a] == '-' && s[b] == '-'
    requires DigitRun(s[..a], 2, 4) && DigitRun(s[a + 1..b], 2, 4)
    ensures a == i && b == j
  {
    if a < i {
      assert false;
    } else if i < a {
      GroupHasNoDash(s[..a], 2, 4, i);
      assert false;
    }
    if b < j {
      assert false;
    } else if j < b {
      GroupHasNoDash(s[a + 1..b], 2, 4, j - a - 1);
      assert false;
    }
  }

  // ---------------------------------------------------------------------------------------
  // validateMail

  /** `[A-Za-z0-9_.-]`, the class of the local part and of the domain's first run. */
  predicate IsMailWordChar(c: char) {
    IsAsciiAlnum(c) || c == '_' || c == '.' || c == '-'
  }

  /** The unescaped `.`: one UTF-16 code unit other than a line terminator. A character outside
      the BMP is two code units, and the neighbours of `.` in the pattern match neither. */
  predicate IsDotChar(c: char) {
    c != '\n' && c != '\r' && c != '\U{2028}' && c != '\U{2029}' && c as int < 0x1_0000
  }

  /** `[A-Za-z0-9_.-]+.[A-Za-z0-9]+$` on the text after the '@', split at the `.` position j. */
  predicate DomainSplit(t: string, j: int) {
    1 <= j < |t| - 1 && AllOf(IsMailWordChar, t[..j]) && IsDotChar(t[j]) && AllOf(IsAsciiAlnum, t[j + 1..])
  }

  /** `^[A-Za-z0-9]{1}[A-Za-z0-9_.-]*@[A-Za-z0-9_.-]+.[A-Za-z0-9]+$` read as a split of the whole string. */
  predicate MailShape(s: string) {
    exists k ::
      && 1 <= k < |s| && IsAsciiAlnum(s[0]) && AllOf(IsMailWordChar, s[1..k]) && s[k] == '@'
      && HasDomainSplit(s[k + 1..])
  }

  function IsAt(c: char): bool { c == '@' }

  predicate HasDomainSplit(t: string) {
    exists j :: 0 <= j < |t| && DomainSplit(t, j)
  }

  /** validateMail as a scan: the local part holds no '@', so the separator is the first '@'. */
  function ValidateMail(s: string): (r: bool)
    ensures r <==> MailShape(s)
    ensures r ==> IsAsciiAlnum(s[0]) && '@' in s && IsAsciiAlnum(s[|s| - 1])
  {
    match FirstWhere(IsAt, s, 0)
    case None => MailNoAt(s); false
    case Some(k) =>
      MailSplitUnique(s, k);
      var r := 1 <= k && IsAsciiAlnum(s[0]) && AllOf(IsMailWordChar, s[1..k]) && HasDomainSplit(s[k + 1..]);
      MailEnds(s, k, r);
      r
  }

  lemma MailNoAt(s: string)
    requires forall k :: 0 <= k < |s| ==> !IsAt(s[k])
    ensures !MailShape(s)
  {
  }

  lemma MailSplitUnique(s: string, k: nat)
    requires k < |s| && IsAt(s[k])
    requires forall m :: 0 <= m < k ==> !IsAt(s[m])
    ensures MailShape(s) <==>
              1 <= k && IsAsciiAlnum(s[0]) && AllOf(IsMailWordChar, s[1..k]) && HasDomainSplit(s[k + 1..])
  {
    if MailShape(s) {
      var a :| && 1 <= a < |s| && IsAsciiAlnum(s[0]) && AllOf(IsMailWordChar, s[1..a]) && s[a] == '@'
                && HasDomainSplit(s[a + 1..]);
      if a < k {
        assert false;
      } else if k < a {
        WordCharNotAt(s[1..a], k - 1);
        assert false;
      }
    }
  }

  lemma WordCharNotAt(t: string, i: nat)
    requires AllOf(IsMailWordChar, t) && i < |t|
    ensures t[i] != '@'
  {
  }

  lemma MailEnds(s: string, k: nat, r: bool)
    requires k < |s| && s[k] == '@'
    requires r == (1 <= k && IsAsciiAlnum(s[0]) && AllOf(IsMailWordChar, s[1..k]) && HasDomainSplit(s[k + 1..]))
    ensures r ==> IsAsciiAlnum(s[0]) && '@' in s && IsAsciiAlnum(s[|s| - 1])
  {
    if r {
      var t := s[k + 1..];
      var j :| 0 <= j < |t| && DomainSplit(t, j);
      var tail := t[j + 1..];
      assert IsAsciiAlnum(tail[|tail| - 1]);
      assert tail[|tail| - 1] == s[|s| - 1];
      assert s[k] in s;
    }
  }

  /** No literal dot is required: the `.` of the pattern matches any character, "a@bcd" included. */
  lemma DotNotRequired()
    ensures ValidateMail("a@bcd")
  {
    var s := "a@bcd";
    assert DomainSplit(s[2..], 1);
    assert s[1..1] == [];
    assert HasDomainSplit(s[1 + 1..]);
    assert 1 <= 1 < |s| && IsAsciiAlnum(s[0]) && AllOf(IsMailWordChar, s[1..1]) && s[1] == '@';
  }

  /** A conventional address local@domain.tld with word-character parts passes. */
  lemma ConventionalAddressAccepted(local: string, domain: string, tld: string)
    requires |local| >= 1 && IsAsciiAlnum(local[0]) && AllOf(IsMailWordChar, local)
    requires |domain| >= 1 && AllOf(IsMailWordChar, domain)
    requires |tld| >= 1 && AllOf(IsAsciiAlnum, tld)
    ensures ValidateMail(local + "@" + domain + "." + tld)
  {
    var s := local + "@" + domain + "." + tld;
    var k := |local|;
    var t := s[k + 1..];
    assert t == domain + "." + tld;
    assert t[..|domain|] == domain;
    assert t[|domain| + 1..] == tld;
    assert DomainSplit(t, |domain|);
    assert HasDomainSplit(s[k + 1..]);
    assert s[1..k] == local[1..];
    assert s[k] == '@';
  }

  // ---------------------------------------------------------------------------------------
  // The submit handler

  /** The types a selected identity document may declare. */
  const CLIENT_IMAGE_TYPES: set<string> := {"image/png", "image/jpeg"}

  /** The form as the handler sees it. A field is None when the form has no such element;
      a document is the declared type of the first selected file, or None when none is selected. */
  datatype ClientForm = ClientForm(
    name: Option<string>,
    kana: Option<string>,
    postalCode: Option<string>,
    prefecture: Option<string>,
    cityTown: Option<string>,
    tel: Option<string>,
    email: Option<string>,
    document1: Option<string>,
    document2: Option<string>)

  /** The fields of requiredFields, in their listed order. */
  datatype RequiredField = RName | RKana | RPostalCode | RPrefecture | RCityTown | RTel | REmail

  const REQUIRED_FIELDS: seq<RequiredField> := [RName, RKana, RPostalCode, RPrefecture, RCityTown, RTel, REmail]

  function Value(f: ClientForm, r: RequiredField): Option<string> {
    match r
    case RName => f.name
    case RKana => f.kana
    case RPostalCode => f.postalCode
    case RPrefecture => f.prefecture
    case RCityTown => f.cityTown
    case RTel => f.tel
    case REmail => f.email
  }

  /** One message the handler shows. */
  datatype ClientFailure =
    | Missing(field: RequiredField)
    | KanaNotHiragana
    | PostalFormat
    | TelFormat
    | MailFormat
    | Document1Type
    | Document2Type

  function ClientMessage(x: ClientFailure): string {
    match x
    case Missing(RName) => "お名前が入力されていません"
    case Missing(RKana) => "ふりがなが入力されていません"
    case Missing(RPostalCode) => "郵便番号が入力されていません"
    case Missing(RPrefecture) => "都道府県が入力されていません"
    case Missing(RCityTown) => "市区町村が入力されていません"
    case Missing(RTel) => "電話番号が入力されていません"
    case Missing(REmail) => "メールアドレスが入力されていません"
    case KanaNotHiragana => "ひらがなを入れて下さい"
    case PostalFormat => "郵便番号の形式が正しくありません（例: 123-4567）"
    case TelFormat => "電話番号が違います"
    case MailFormat => "メールアドレスが正しくありません"
    case Document1Type | Document2Type => "ファイル形式は PNG または JPEG のみ許可されています"
  }

  /** A present element whose value is the empty string. */
  predicate IsBlank(v: Option<string>) {
    v.Some? && v.value == ""
  }

  /** A present element with a value that fails `valid`; blank values are left to the required check. */
  predicate FailsFormat(v: Option<string>, valid: string -> bool) {
    v.Some? && v.value != "" && !valid(v.value)
  }

  predicate DocumentRefused(t: Option<string>) {
    t.Some? && t.value !in CLIENT_IMAGE_TYPES
  }

  function MissingFields(f: ClientForm, rs: seq<RequiredField>): (r: seq<ClientFailure>)
    ensures forall x :: x in r <==> x.Missing? && x.field in rs && IsBlank(Value(f, x.field))
  {
    if rs == [] then []
    else (if IsBlank(Value(f, rs[0])) then [Missing(rs[0])] else []) + MissingFields(f, rs[1..])
  }

  function When(c: bool, x: ClientFailure): seq<ClientFailure> {
    if c then [x] else []
  }

  /** The messages the submit handler shows, in the order it adds them. */
  function SubmitErrors(f: ClientForm): (r: seq<ClientFailure>)
    ensures forall rf :: Missing(rf) in r <==> IsBlank(Value(f, rf))
    ensures KanaNotHiragana in r <==> FailsFormat(f.kana, ValidateKana)
    ensures PostalFormat in r <==> FailsFormat(f.postalCode, PostalShape)
    ensures TelFormat in r <==> FailsFormat(f.tel, ValidateTel)
    ensures MailFormat in r <==> FailsFormat(f.email, ValidateMail)
    ensures Document1Type in r <==> DocumentRefused(f.document1)
    ensures Document2Type in r <==> DocumentRefused(f.document2)
  {
    AllRequiredListed();
    MissingFields(f, REQUIRED_FIELDS)
      + When(FailsFormat(f.kana, ValidateKana), KanaNotHiragana)
      + When(FailsFormat(f.postalCode, PostalShape), PostalFormat)
      + When(FailsFormat(f.tel, ValidateTel), TelFormat)
      + When(FailsFormat(f.email, ValidateMail), MailFormat)
      + When(DocumentRefused(f.document1), Document1Type)
      + When(DocumentRefused(f.document2), Document2Type)
  }

  lemma AllRequiredListed()
    ensures forall rf :: rf in REQUIRED_FIELDS
  {
    forall rf ensures rf in REQUIRED_FIELDS {
      match rf
      case RName => assert REQUIRED_FIELDS[0] == rf;
      case RKana => assert REQUIRED_FIELDS[1] == rf;
      case RPostalCode => assert REQUIRED_FIELDS[2] == rf;
      case RPrefecture => assert REQUIRED_FIELDS[3] == rf;
      case RCityTown => assert REQUIRED_FIELDS[4] == rf;
      case RTel => assert REQUIRED_FIELDS[5] == rf;
      case REmail => assert REQUIRED_FIELDS[6] == rf;
    }
  }

  /** The handler cancels the submission (preventDefault) exactly when some check failed. */
  predicate SubmitBlocked(f: ClientForm)
    ensures SubmitBlocked(f) <==>
              || (exists rf :: IsBlank(Value(f, rf)))
              || FailsFormat(f.kana, ValidateKana)
              || FailsFormat(f.postalCode, PostalShape)
              || FailsFormat(f.tel, ValidateTel)
              || FailsFormat(f.email, ValidateMail)
              || DocumentRefused(f.document1) || DocumentRefused(f.document2)
  {
    NonEmptyHasElement(SubmitErrors(f));
    SubmitErrors(f) != []
  }

  lemma NonEmptyHasElement<T>(r: seq<T>)
    ensures r != [] <==> exists x :: x in r
  {
    if r != [] {
      assert r[0] in r;
    }
  }

  /** The submit handler checks the name only for being blank: its format is never consulted. */
  lemma SubmitIgnoresNameFormat(f: ClientForm, name: string)
    requires f.name.Some? && f.name.value != "" && name != ""
    ensures SubmitBlocked(f) <==> SubmitBlocked(f.(name := Some(name)))
  {
    var g := f.(name := Some(name));
    assert forall rf :: IsBlank(Value(f, rf)) <==> IsBlank(Value(g, rf));
  }

  // ---------------------------------------------------------------------------------------
  // Page load: the first-display check runs before the submit handler is registered

  /** Every required field is present and blank: the first-visit case that shows no message. */
  predicate AllBlank(f: ClientForm) {
    forall rf :: IsBlank(Value(f, rf))
  }

  /** As written, `errorElement` is a `var` whose function value is assigned only at the end of
      the script, so the first-display check's call to it throws. The script stops there, and the
      submit handler is registered only when that check shows nothing: all fields blank, or none. */
  predicate HandlerRegisteredAsWritten(f: ClientForm)
    ensures HandlerRegisteredAsWritten(f) <==> AllBlank(f) || MissingFields(f, REQUIRED_FIELDS) == []
  {
    NoneMissing(f);
    AllBlank(f) || forall rf :: !IsBlank(Value(f, rf))
  }

  lemma NoneMissing(f: ClientForm)
    ensures MissingFields(f, REQUIRED_FIELDS) == [] <==> forall rf :: !IsBlank(Value(f, rf))
  {
    var r := MissingFields(f, REQUIRED_FIELDS);
    AllRequiredListed();
    if r != [] {
      assert r[0] in r;
      assert IsBlank(Value(f, r[0].field));
    }
    forall rf | IsBlank(Value(f, rf)) ensures r != [] {
      assert Missing(rf) in r;
    }
  }

  /** Whether the submission is cancelled when the page is loaded with `f` and then submitted
      unchanged, with the script as written. */
  predicate SubmitBlockedAsWritten(f: ClientForm) {
    HandlerRegisteredAsWritten(f) && SubmitBlocked(f)
  }

  /** Loading with only the name blank stops the script, so the blank name is submitted anyway. */
  lemma BlankNameSlipsThroughAtLoad(f: ClientForm)
    requires IsBlank(f.name) && f.kana.Some? && f.kana.value != ""
    ensures SubmitBlocked(f)
    ensures !SubmitBlockedAsWritten(f)
  {
    assert IsBlank(Value(f, RName)) && !IsBlank(Value(f, RKana));
    AllRequiredListed();
    assert Missing(RName) in MissingFields(f, REQUIRED_FIELDS);
  }

  /** With the handler registered whatever the page holds, as intended, a blank required field
      always cancels the submission. */
  lemma BlankFieldBlocks(f: ClientForm, rf: RequiredField)
    requires IsBlank(Value(f, rf))
    ensures SubmitBlocked(f)
  {
  }
}
