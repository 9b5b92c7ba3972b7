/** Validator::validate and Validator::getErrors: the server's per-field rule chains. Each field
    reports at most one message, the first failing rule's, and keys appear in declaration order. */
module Validator {
  import opened Wrappers
  import opened Chars
  import opened Strings
  import opened Decimal
  import opened Dates

  /** The posted form: each key may be missing. */
  datatype Submission = Submission(
    name: Option<string>,
    kana: Option<string>,
    birthYear: Option<string>,
    birthMonth: Option<string>,
    birthDay: Option<string>,
    postalCode: Option<string>,
    prefecture: Option<string>,
    cityTown: Option<string>,
    building: Option<string>,
    tel: Option<string>,
    email: Option<string>)

  /** The option array: skip the birth-date group, run the document-type group. */
  datatype Options = Options(skipBirthDate: bool, checkDocuments: bool)

  /** PHP's UPLOAD_ERR_NO_FILE: the file input was left empty. */
  const UPLOAD_ERR_NO_FILE: int := 4

  /** The metadata of one entry of $_FILES: its upload error code and its declared type. */
  datatype Upload = Upload(error: int, mimeType: string)

  datatype Uploads = Uploads(document1: Option<Upload>, document2: Option<Upload>)

  /** One call: the submission, the options, the uploaded files and today's date. */
  datatype Request = Request(data: Submission, options: Options, files: Uploads, today: Date)

  /** Library predicates the model does not define: membership of a character in
      \p{Han}, \p{Hiragana} or \p{Katakana}, and PHP's FILTER_VALIDATE_EMAIL. */
  datatype Oracles = Oracles(isJapaneseScript: char -> bool, isValidEmail: string -> bool)

  /** The keys of the error map, in the order validate writes them. */
  datatype Field = Name | Kana | BirthDate | PostalCode | Address | Tel | Email | Document1 | Document2

  const FIELD_ORDER: seq<Field> := [Name, Kana, BirthDate, PostalCode, Address, Tel, Email, Document1, Document2]

  function Rank(f: Field): nat {
    match f
    case Name => 0
    case Kana => 1
    case BirthDate => 2
    case PostalCode => 3
    case Address => 4
    case Tel => 5
    case Email => 6
    case Document1 => 7
    case Document2 => 8
  }

  /** The array key PHP uses for a field. */
  function Key(f: Field): string {
    match f
    case Name => "name"
    case Kana => "kana"
    case BirthDate => "birth_date"
    case PostalCode => "postal_code"
    case Address => "address"
    case Tel => "tel"
    case Email => "email"
    case Document1 => "document1"
    case Document2 => "document2"
  }

  lemma KeysDistinct(f: Field, g: Field)
    ensures Key(f) == Key(g) ==> f == g
  {
  }

  /** Why a field was rejected: one constructor per message the validator can store. */
  datatype Failure =
    | NameRequired | NameTooLong | NameEdgeSpace | NameNotJapanese
    | KanaRequired | KanaEdgeSpace | KanaNotHiragana | KanaTooLong
    | BirthRequired | BirthInvalid | BirthFuture
    | PostalRequired | PostalFormat
    | AddressRequired | PrefectureTooLong | CityOrBuildingTooLong
    | TelRequired | TelSpace | TelNoDigit | TelFormat
    | EmailRequired | EmailInvalid
    | Document1Type | Document2Type

  /** The key under which a failure is stored. */
  function FieldOf(x: Failure): Field {
    match x
    case NameRequired | NameTooLong | NameEdgeSpace | NameNotJapanese => Name
    case KanaRequired | KanaEdgeSpace | KanaNotHiragana | KanaTooLong => Kana
    case BirthRequired | BirthInvalid | BirthFuture => BirthDate
    case PostalRequired | PostalFormat => PostalCode
    case AddressRequired | PrefectureTooLong | CityOrBuildingTooLong => Address
    case TelRequired | TelSpace | TelNoDigit | TelFormat => Tel
    case EmailRequired | EmailInvalid => Email
    case Document1Type => Document1
    case Document2Type => Document2
  }

  /** The message stored for a failure. */
  function Message(x: Failure): string {
    match x
    case NameRequired => "名前が入力されていません"
    case NameTooLong => "名前は20文字以内で入力してください"
    case NameEdgeSpace => "前後の空白を削除してください"
    case NameNotJapanese => "日本語(漢字、ひらがな、カタカナ)で入力してください"
    case KanaRequired => "ふりがなが入力されていません"
    case KanaEdgeSpace => "前後の空白を削除してください"
    case KanaNotHiragana => "ひらがなで入力してください"
    case KanaTooLong => "ふりがなは20文字以内で入力してください"
    case BirthRequired => "生年月日が入力されていません"
    case BirthInvalid => "生年月日が正しくありません"
    case BirthFuture => "生年月日は未来の日付は入力できません"
    case PostalRequired => "郵便番号が入力されていません"
    case PostalFormat => "郵便番号の形式が正しくありません（例: 123-4567）"
    case AddressRequired => "住所(都道府県もしくは市区町村・番地)が入力されていません"
    case PrefectureTooLong => "都道府県は10文字以内で入力してください"
    case CityOrBuildingTooLong => "市区町村・番地もしくは建物名は50文字以内で入力してください"
    case TelRequired => "電話番号が入力されていません"
    case TelSpace => "空白を削除してください"
    case TelNoDigit => "数字を入力してください"
    case TelFormat => "電話番号の形式が正しくありません（例: 090-1234-5678）"
    case EmailRequired => "メールアドレスが入力されていません"
    case EmailInvalid => "有効なメールアドレスを入力してください"
    case Document1Type => "本人確認書類（表）はPNG/JPEG画像のみアップロード可能です"
    case Document2Type => "本人確認書類（裏）はPNG/JPEG画像のみアップロード可能です"
  }

  /** The declared types the server accepts for an identity document. */
  const SERVER_IMAGE_TYPES: set<string> := {"image/png", "image/jpeg", "image/jpg"}

  /** PHP's empty() on a form value: a missing key, "" and "0" are empty. */
  predicate IsEmpty(v: Option<string>) {
    v.None? || v.value == "" || v.value == "0"
  }

  /** The string PHP's mb_strlen sees: a missing key reads as null, whose length is 0. */
  function Text(v: Option<string>): string {
    v.GetOr("")
  }

  /** A PCRE match that ends in `$` without the D modifier: the pattern may match the whole
      subject, or the subject without one final line feed. */
  predicate DollarMatch(p: string -> bool, s: string) {
    p(s) || (|s| > 0 && s[|s| - 1] == '\n' && p(s[..|s| - 1]))
  }

  /** `^0\d{1,4}-\d{1,4}-\d{3,4}` as a whole-subject shape. */
  predicate ServerTelShape(s: string) {
    exists i, j ::
      && 0 < i < j < |s| && s[0] == '0' && s[i] == '-' && s[j] == '-'
      && DigitRun(s[1..i], 1, 4) && DigitRun(s[i + 1..j], 1, 4) && DigitRun(s[j + 1..], 3, 4)
  }

  /** Every character of a telephone number in the server's shape is a digit or '-', and it holds a digit. */
  lemma TelShapeChars(s: string)
    requires ServerTelShape(s)
    ensures forall c :: c in s ==> IsAsciiDigit(c) || c == '-'
    ensures IsAsciiDigit(s[|s| - 1])
  {
    var i, j :| && 0 < i < j < |s| && s[0] == '0' && s[i] == '-' && s[j] == '-'
                && DigitRun(s[1..i], 1, 4) && DigitRun(s[i + 1..j], 1, 4) && DigitRun(s[j + 1..], 3, 4);
    forall k | 0 <= k < |s| ensures IsAsciiDigit(s[k]) || s[k] == '-' {
      if 0 < k < i {
        assert s[k] == s[1..i][k - 1];
      } else if i < k < j {
        assert s[k] == s[i + 1..j][k - i - 1];
      } else if j < k {
        assert s[k] == s[j + 1..][k - j - 1];
      }
    }
    assert s[|s| - 1] == s[j + 1..][|s| - j - 2];
  }

  /** Whether the name starts with, or (up to one final line feed) ends with, a Unicode space. */
  predicate NameHasEdgeSpace(v: string) {
    (|v| > 0 && IsUnicodeSpace(v[0])) || DollarMatch(t => |t| > 0 && IsUnicodeSpace(t[|t| - 1]), v)
  }

  predicate IsNameChar(o: Oracles, c: char) {
    o.isJapaneseScript(c) || c == LONG_VOWEL_MARK || IsUnicodeSpace(c)
  }

  /** Whether the name is one or more characters of Han, Hiragana, Katakana, ー or spaces. */
  predicate NameIsJapanese(o: Oracles, v: string) {
    DollarMatch(t => |t| > 0 && forall c :: c in t ==> IsNameChar(o, c), v)
  }

  /** The name chain: required, at most 20 characters, no space at either end, Japanese script. */
  function NameCheck(v: Option<string>, o: Oracles): (r: Option<Failure>)
    ensures r.Some? ==> FieldOf(r.value) == Name
    ensures r == Some(NameRequired) <==> IsEmpty(v)
    ensures r == Some(NameTooLong) <==> !IsEmpty(v) && |v.value| > 20
    ensures r == Some(NameEdgeSpace) <==> !IsEmpty(v) && |v.value| <= 20 && NameHasEdgeSpace(v.value)
    ensures r == Some(NameNotJapanese) <==>
              !IsEmpty(v) && |v.value| <= 20 && !NameHasEdgeSpace(v.value) && !NameIsJapanese(o, v.value)
  {
    if IsEmpty(v) then Some(NameRequired)
    else if |v.value| > 20 then Some(NameTooLong)
    else if NameHasEdgeSpace(v.value) then Some(NameEdgeSpace)
    else if !NameIsJapanese(o, v.value) then Some(NameNotJapanese)
    else None
  }

  /** What an accepted name looks like: at most 20 name characters, with no space at either end. */
  predicate NameAccepted(v: Option<string>, o: Oracles) {
    && !IsEmpty(v)
    && 0 < |v.value| <= 20
    && !IsUnicodeSpace(v.value[0]) && !IsUnicodeSpace(v.value[|v.value| - 1])
    && forall c :: c in v.value ==> IsNameChar(o, c)
  }

  lemma NameCheckAccepts(v: Option<string>, o: Oracles)
    ensures NameCheck(v, o).None? <==> NameAccepted(v, o)
  {
    if !IsEmpty(v) && |v.value| <= 20 && !NameHasEdgeSpace(v.value) {
      var s := v.value;
      assert s[|s| - 1] != '\n';
    }
  }

  /** The kana chain: required, no space at either end, hiragana, ー and spaces only, at most 20
      characters. The trimming step removes every leading and trailing Unicode space. */
  function KanaCheck(v: Option<string>): (r: Option<Failure>)
    ensures r.Some? ==> FieldOf(r.value) == Kana
    ensures r == Some(KanaRequired) <==> IsEmpty(v)
    ensures r == Some(KanaEdgeSpace) <==>
              !IsEmpty(v) && (IsUnicodeSpace(v.value[0]) || IsUnicodeSpace(v.value[|v.value| - 1]))
    ensures r == Some(KanaNotHiragana) <==> !IsEmpty(v) && TrimBy(IsUnicodeSpace, v.value) == v.value
                                               && exists c :: c in v.value && !IsKanaChar(c)
    ensures r == Some(KanaTooLong) <==> !IsEmpty(v) && TrimBy(IsUnicodeSpace, v.value) == v.value
                                           && (forall c :: c in v.value ==> IsKanaChar(c)) && |v.value| > 20
  {
    if IsEmpty(v) then Some(KanaRequired)
    else
      var trimmed := TrimBy(IsUnicodeSpace, v.value);
      if trimmed != v.value then Some(KanaEdgeSpace)
      else if exists c :: c in trimmed && !IsKanaChar(c) then Some(KanaNotHiragana)
      else if |trimmed| > 20 then Some(KanaTooLong)
      else None
  }

  /** The characters `[ぁ-んー\s　]` the kana field may hold. */
  predicate IsKanaChar(c: char) {
    IsHiraganaRange(c) || c == LONG_VOWEL_MARK || IsUnicodeSpace(c)
  }

  /** What an accepted kana looks like: 1 to 20 kana characters with no space at either end. */
  predicate KanaAccepted(v: Option<string>) {
    && !IsEmpty(v)
    && 0 < |v.value| <= 20
    && !IsUnicodeSpace(v.value[0]) && !IsUnicodeSpace(v.value[|v.value| - 1])
    && forall c :: c in v.value ==> IsKanaChar(c)
  }

  lemma KanaCheckAccepts(v: Option<string>)
    ensures KanaCheck(v).None? <==> KanaAccepted(v)
  {
  }

  /** The three parts of the birth date as PHP's (int) cast reads them. */
  function BirthParts(d: Submission): (int, int, int) {
    (PhpIntCast(Text(d.birthYear)), PhpIntCast(Text(d.birthMonth)), PhpIntCast(Text(d.birthDay)))
  }

  /** The last two rules of the birth-date chain, on the integers the cast produced: a real
      date, not in the future. The future test uses the calendar order (see Dates.IsFuture). */
  function DateCheck(y: int, m: int, dd: int, today: Date): (r: Option<Failure>)
    ensures r.Some? ==> FieldOf(r.value) == BirthDate
    ensures r == Some(BirthInvalid) <==> !CheckDate(m, dd, y)
    ensures r.None? <==> CheckDate(m, dd, y) && !IsFuture(Date(y, m, dd), today)
  {
    if !CheckDate(m, dd, y) then Some(BirthInvalid)
    else if IsFuture(Date(y, m, dd), today) then Some(BirthFuture)
    else None
  }

  /** The birth-date chain, unless skipped: all three parts present, then DateCheck. */
  function BirthCheck(d: Submission, opts: Options, today: Date): (r: Option<Failure>)
    ensures r.Some? ==> FieldOf(r.value) == BirthDate
    ensures opts.skipBirthDate ==> r.None?
    ensures r == Some(BirthRequired) <==>
              !opts.skipBirthDate && (IsEmpty(d.birthYear) || IsEmpty(d.birthMonth) || IsEmpty(d.birthDay))
    ensures !opts.skipBirthDate && !IsEmpty(d.birthYear) && !IsEmpty(d.birthMonth) && !IsEmpty(d.birthDay) ==>
              r == DateCheck(BirthParts(d).0, BirthParts(d).1, BirthParts(d).2, today)
  {
    if opts.skipBirthDate then None
    else if IsEmpty(d.birthYear) || IsEmpty(d.birthMonth) || IsEmpty(d.birthDay) then Some(BirthRequired)
    else DateCheck(BirthParts(d).0, BirthParts(d).1, BirthParts(d).2, today)
  }

  /** The postal-code chain: required, then `^[0-9]{3}-[0-9]{4}$` (which lets one final line feed through). */
  function PostalCheck(v: Option<string>): (r: Option<Failure>)
    ensures r.Some? ==> FieldOf(r.value) == PostalCode
    ensures r == Some(PostalRequired) <==> IsEmpty(v)
    ensures r.None? <==> v.Some? && DollarMatch(PostalShape, v.value)
  {
    if IsEmpty(v) then Some(PostalRequired)
    else if !DollarMatch(PostalShape, v.value) then Some(PostalFormat)
    else None
  }

  /** The address chain over prefecture, city/town and the optional building. */
  function AddressCheck(d: Submission): (r: Option<Failure>)
    ensures r.Some? ==> FieldOf(r.value) == Address
    ensures r == Some(AddressRequired) <==> IsEmpty(d.prefecture) || IsEmpty(d.cityTown)
    ensures r.None? <==>
              && !IsEmpty(d.prefecture) && !IsEmpty(d.cityTown)
              && |Text(d.prefecture)| <= 10 && |Text(d.cityTown)| <= 50 && |Text(d.building)| <= 50
    ensures r == Some(PrefectureTooLong) <==>
              !IsEmpty(d.prefecture) && !IsEmpty(d.cityTown) && |Text(d.prefecture)| > 10
    ensures r == Some(CityOrBuildingTooLong) <==>
              && !IsEmpty(d.prefecture) && !IsEmpty(d.cityTown) && |Text(d.prefecture)| <= 10
              && (|Text(d.cityTown)| > 50 || |Text(d.building)| > 50)
  {
    if IsEmpty(d.prefecture) || IsEmpty(d.cityTown) then Some(AddressRequired)
    else if |d.prefecture.value| > 10 then Some(PrefectureTooLong)
    else if |d.cityTown.value| > 50 || |Text(d.building)| > 50 then Some(CityOrBuildingTooLong)
    else None
  }

  /** The telephone chain: required, no ASCII whitespace, at least one digit, then the shape. */
  function TelCheck(v: Option<string>): (r: Option<Failure>)
    ensures r.Some? ==> FieldOf(r.value) == Tel
    ensures r == Some(TelRequired) <==> IsEmpty(v)
    ensures r == Some(TelSpace) <==> !IsEmpty(v) && exists c :: c in v.value && IsAsciiSpace(c)
    ensures r == Some(TelNoDigit) <==>
              && !IsEmpty(v) && (forall c :: c in v.value ==> !IsAsciiSpace(c))
              && (forall c :: c in v.value ==> !IsAsciiDigit(c))
    ensures r == Some(TelFormat) <==>
              && !IsEmpty(v) && (forall c :: c in v.value ==> !IsAsciiSpace(c))
              && (exists c :: c in v.value && IsAsciiDigit(c)) && !ServerTelShape(v.value)
    ensures r.None? <==> v.Some? && ServerTelShape(v.value)
  {
    TelShapeAccepts(v);
    if IsEmpty(v) then Some(TelRequired)
    else if exists c :: c in v.value && IsAsciiSpace(c) then Some(TelSpace)
    else if forall c :: c in v.value ==> !IsAsciiDigit(c) then Some(TelNoDigit)
    else if !DollarMatch(ServerTelShape, v.value) then Some(TelFormat)
    else None
  }

  /** A telephone number passes the space and digit rules whenever it has the server's shape,
      and the final line feed `$` tolerates is already refused as a space. */
  lemma TelShapeAccepts(v: Option<string>)
    ensures v.Some? && ServerTelShape(v.value) ==>
              && !IsEmpty(v)
              && (forall c :: c in v.value ==> !IsAsciiSpace(c))
              && (exists c :: c in v.value && IsAsciiDigit(c))
    ensures v.Some? && (forall c :: c in v.value ==> !IsAsciiSpace(c)) ==>
              (DollarMatch(ServerTelShape, v.value) <==> ServerTelShape(v.value))
  {
    if v.Some? && ServerTelShape(v.value) {
      TelShapeChars(v.value);
      assert v.value[|v.value| - 1] in v.value;
    }
    if v.Some? && |v.value| > 0 && (forall c :: c in v.value ==> !IsAsciiSpace(c)) {
      assert v.value[|v.value| - 1] in v.value;
    }
  }

  /** The e-mail chain: required, then PHP's address filter. */
  function EmailCheck(v: Option<string>, o: Oracles): (r: Option<Failure>)
    ensures r.Some? ==> FieldOf(r.value) == Email
    ensures r == Some(EmailRequired) <==> IsEmpty(v)
    ensures r.None? <==> !IsEmpty(v) && o.isValidEmail(v.value)
  {
    if IsEmpty(v) then Some(EmailRequired)
    else if !o.isValidEmail(v.value) then Some(EmailInvalid)
    else None
  }

  /** Whether an uploaded document is refused: a file was chosen and its declared type is not PNG or JPEG. */
  predicate DocumentRefused(u: Option<Upload>) {
    u.Some? && u.value.error != UPLOAD_ERR_NO_FILE && u.value.mimeType !in SERVER_IMAGE_TYPES
  }

  function DocumentCheck(f: Field, files: Uploads, opts: Options): (r: Option<Failure>)
    requires f == Document1 || f == Document2
    ensures r.Some? ==> FieldOf(r.value) == f
    ensures r.Some? <==> opts.checkDocuments && DocumentRefused(if f == Document1 then files.document1 else files.document2)
  {
    if !opts.checkDocuments then None
    else if f == Document1 then (if DocumentRefused(files.document1) then Some(Document1Type) else None)
    else if DocumentRefused(files.document2) then Some(Document2Type) else None
  }

  /** The outcome of one field's chain for a request. */
  function FieldCheck(f: Field, req: Request, o: Oracles): (r: Option<Failure>)
    ensures r.Some? ==> FieldOf(r.value) == f
  {
    match f
    case Name => NameCheck(req.data.name, o)
    case Kana => KanaCheck(req.data.kana)
    case BirthDate => BirthCheck(req.data, req.options, req.today)
    case PostalCode => PostalCheck(req.data.postalCode)
    case Address => AddressCheck(req.data)
    case Tel => TelCheck(req.data.tel)
    case Email => EmailCheck(req.data.email, o)
    case Document1 | Document2 => DocumentCheck(f, req.files, req.options)
  }

  /** FIELD_ORDER lists every field, in key order. */
  lemma FieldOrderComplete()
    ensures forall f :: f in FIELD_ORDER
    ensures InKeyOrder(FIELD_ORDER)
  {
    forall f ensures f in FIELD_ORDER {
      assert FIELD_ORDER[Rank(f)] == f;
    }
  }

  /** Fields listed in strictly increasing key order. */
  predicate InKeyOrder(fs: seq<Field>) {
    forall i, j :: 0 <= i < j < |fs| ==> Rank(fs[i]) < Rank(fs[j])
  }

  predicate FailuresInKeyOrder(xs: seq<Failure>) {
    forall i, j :: 0 <= i < j < |xs| ==> Rank(FieldOf(xs[i])) < Rank(FieldOf(xs[j]))
  }

  /** The failures of the listed fields' chains, one per failing field, in list order. */
  function Collect(fs: seq<Field>, req: Request, o: Oracles): (r: seq<Failure>)
    ensures forall x :: x in r <==> FieldOf(x) in fs && FieldCheck(FieldOf(x), req, o) == Some(x)
    ensures InKeyOrder(fs) ==> FailuresInKeyOrder(r)
  {
    if fs == [] then []
    else
      var head := match FieldCheck(fs[0], req, o) case Some(x) => [x] case None => [];
      var rest := Collect(fs[1..], req, o);
      assert forall x :: x in rest ==> FieldOf(x) in fs[1..];
      head + rest
  }

  /** The result of validate: whether it passed and the stored failures, in key order. */
  datatype Verdict = Verdict(passed: bool, errors: seq<Failure>)

  /** Validator::validate. The error map is rebuilt from scratch on every call. */
  function Validate(req: Request, o: Oracles): (v: Verdict)
    ensures v.passed <==> v.errors == []
    ensures v.passed <==> forall f :: FieldCheck(f, req, o).None?
    ensures forall x :: x in v.errors <==> FieldCheck(FieldOf(x), req, o) == Some(x)
    ensures FailuresInKeyOrder(v.errors)
    ensures req.options.skipBirthDate ==> forall x :: x in v.errors ==> FieldOf(x) != BirthDate
    ensures !req.options.checkDocuments ==> forall x :: x in v.errors ==> FieldOf(x) != Document1 && FieldOf(x) != Document2
  {
    CollectAllFields(req, o);
    OptionsSilenceFields(req, o);
    var errors := Collect(FIELD_ORDER, req, o);
    Verdict(errors == [], errors)
  }

  /** Collecting over every field yields each failing field's message, in key order. */
  lemma CollectAllFields(req: Request, o: Oracles)
    ensures forall x :: x in Collect(FIELD_ORDER, req, o) <==> FieldCheck(FieldOf(x), req, o) == Some(x)
    ensures FailuresInKeyOrder(Collect(FIELD_ORDER, req, o))
    ensures Collect(FIELD_ORDER, req, o) == [] <==> forall f :: FieldCheck(f, req, o).None?
  {
    FieldOrderComplete();
    var errors := Collect(FIELD_ORDER, req, o);
    if f :| FieldCheck(f, req, o).Some? {
      assert FieldCheck(f, req, o).value in errors;
    }
    if errors != [] {
      assert errors[0] in errors;
    }
  }

  /** The options switch off the birth-date chain and the document chains. */
  lemma OptionsSilenceFields(req: Request, o: Oracles)
    ensures req.options.skipBirthDate ==> FieldCheck(BirthDate, req, o).None?
    ensures !req.options.checkDocuments ==> FieldCheck(Document1, req, o).None? && FieldCheck(Document2, req, o).None?
  {
  }

  /** The PHP array of stored failures: key and message per entry, in order. */
  function ErrorEntries(errors: seq<Failure>): (r: seq<(string, string)>)
    requires FailuresInKeyOrder(errors)
    ensures |r| == |errors|
    ensures forall i :: 0 <= i < |r| ==> r[i] == (Key(FieldOf(errors[i])), Message(errors[i]))
    ensures forall i, j :: 0 <= i < j < |r| ==> r[i].0 != r[j].0
    ensures forall e :: e in r <==> exists x :: x in errors && e == (Key(FieldOf(x)), Message(x))
  {
    var r := seq(|errors|, i requires 0 <= i < |errors| => (Key(FieldOf(errors[i])), Message(errors[i])));
    forall i, j | 0 <= i < j < |r| ensures r[i].0 != r[j].0 {
      KeysDistinct(FieldOf(errors[i]), FieldOf(errors[j]));
    }
    forall e | e in r ensures exists x :: x in errors && e == (Key(FieldOf(x)), Message(x)) {
      var i :| 0 <= i < |r| && r[i] == e;
      assert errors[i] in errors;
    }
    forall x | x in errors ensures (Key(FieldOf(x)), Message(x)) in r {
      var i :| 0 <= i < |errors| && errors[i] == x;
      assert r[i] == (Key(FieldOf(x)), Message(x));
    }
    r
  }

  /** Validator::getErrors after validate: field key to message, in the order validate inserted
      them, which is key order. */
  function GetErrors(req: Request, o: Oracles): (r: seq<(string, string)>)
    ensures forall i, j :: 0 <= i < j < |r| ==> r[i].0 != r[j].0
    ensures var e := Validate(req, o).errors;
            |r| == |e| && forall i :: 0 <= i < |r| ==> r[i] == (Key(FieldOf(e[i])), Message(e[i]))
    ensures forall f :: FieldCheck(f, req, o).Some? ==> (Key(f), Message(FieldCheck(f, req, o).value)) in r
    ensures forall e :: e in r ==> exists f :: e == (Key(f), Message(FieldCheck(f, req, o).GetOr(NameRequired)))
                                              && FieldCheck(f, req, o).Some?
    ensures r == [] <==> Validate(req, o).passed
  {
    ErrorEntries(Validate(req, o).errors)
  }
}
