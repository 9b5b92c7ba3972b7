/** UserAddress::checkAddressMatch: does a typed postal code, prefecture and city/town agree
    with some row of the address master? The SQL query is a parameter of the model. */
module AddressMatch {
  import opened Wrappers
  import opened Chars
  import opened Strings
  import opened Normalization

  /** One row of the address master, as the query selects it (city, town). */
  datatype MasterRow = MasterRow(city: string, town: string)

  /** The query against the address master for a (postal code, prefecture) key:
      the selected rows, or a database exception. */
  type Lookup = (string, string) -> LookupResult<MasterRow>

  /** The town value the master uses for "nothing further is listed under this code". */
  const NO_LISTING_TOWN: string := "以下に掲載がない場合"

  /** The postal key of the query: trim, delete every ASCII hyphen, then turn full-width digits
      into ASCII. A full-width hyphen is not deleted. */
  function PostalKey(s: string): (r: string)
    ensures '-' !in r
    ensures forall c :: c in r ==> !IsFullWidthDigit(c)
    ensures forall c :: c in r ==> IsAsciiDigit(c) || (c in s && !IsFullWidthDigit(c))
    ensures forall c :: c in TrimBy(IsPhpTrimChar, s) && c != '-' && !IsFullWidthDigit(c) ==> c in r
  {
    var t := Filter(c => c != '-', TrimBy(IsPhpTrimChar, s));
    var r := FoldDigits(t);
    forall c | c in r ensures c != '-' && (IsAsciiDigit(c) || (c in s && !IsFullWidthDigit(c))) {
      var i :| 0 <= i < |r| && r[i] == c;
      assert t[i] in t;
    }
    forall c | c in t && !IsFullWidthDigit(c) ensures c in r {
      var i :| 0 <= i < |t| && t[i] == c;
      assert r[i] == c;
    }
    r
  }

  /** A digit as the form may carry it: ASCII or full-width. */
  predicate IsTypedDigit(c: char) {
    IsAsciiDigit(c) || IsFullWidthDigit(c)
  }

  /** A code typed as three digits, a hyphen and four digits, each digit ASCII or full-width and
      with trim() whitespace around it, becomes its seven digits as ASCII, in order. */
  lemma PostalKeyOfHyphenated(pre: string, code: string, post: string)
    requires forall c :: c in pre ==> IsPhpTrimChar(c)
    requires forall c :: c in post ==> IsPhpTrimChar(c)
    requires |code| == 8 && code[3] == '-'
    requires forall i :: 0 <= i < 8 && i != 3 ==> IsTypedDigit(code[i])
    ensures |PostalKey(pre + code + post)| == 7
    ensures forall i :: 0 <= i < 7 ==>
              var r, d := PostalKey(pre + code + post), code[if i < 3 then i else i + 1];
              IsAsciiDigit(r[i]) && r[i] == HalfWidthDigit(d)
  {
    TrimByPadded(IsPhpTrimChar, pre, code, post);
    DeleteHyphenOfHyphenated(code);
    var t := code[..3] + code[4..];
    assert forall i :: 0 <= i < 7 ==> t[i] == code[if i < 3 then i else i + 1];
  }

  lemma DeleteHyphenOfHyphenated(s: string)
    requires |s| == 8 && s[3] == '-'
    requires forall i :: 0 <= i < 8 && i != 3 ==> IsTypedDigit(s[i])
    ensures Filter(c => c != '-', s) == s[..3] + s[4..]
  {
    var keep := c => c != '-';
    var a, b := s[..3], s[4..];
    assert s == a + [s[3]] + b;
    forall c | c in a ensures keep(c) {
      var i :| 0 <= i < 3 && a[i] == c;
    }
    forall c | c in b ensures keep(c) {
      var i :| 0 <= i < 4 && b[i] == c;
      assert c == s[i + 4];
    }
    FilterDropsOne(keep, a, s[3], b);
  }

  /** A row that can confirm an address: its normalised town is neither the sentinel nor empty. */
  predicate Eligible(row: MasterRow) {
    NormalizeAddress(row.town) != NO_LISTING_TOWN && NormalizeAddress(row.town) != ""
  }

  /** The master address a row stands for: normalised city followed by normalised town. */
  function MasterAddress(row: MasterRow): string {
    NormalizeAddress(row.city) + NormalizeAddress(row.town)
  }

  /** A row confirms the normalised input when it is eligible and one of the two texts
      contains the other. */
  predicate Confirms(row: MasterRow, input: string) {
    Eligible(row) && (IsSubstring(MasterAddress(row), input) || IsSubstring(input, MasterAddress(row)))
  }

  /** One pass of the loop body: the row is eligible and passes one of the two mb_strpos tests. */
  predicate LoopAccepts(row: MasterRow, input: string)
    ensures LoopAccepts(row, input) <==> Confirms(row, input)
  {
    Eligible(row) && EitherContains(MasterAddress(row), input)
  }

  /** The two mb_strpos tests of the loop body: one text occurs in the other. */
  predicate EitherContains(master: string, input: string)
    ensures EitherContains(master, input) <==> IsSubstring(master, input) || IsSubstring(input, master)
  {
    StrPos(input, master).Some? || StrPos(master, input).Some?
  }

  /** checkAddressMatch: true exactly when the query for the normalised key succeeds and one of
      its rows confirms the normalised city/town. A failed query, an empty result and a result
      with only sentinel or empty-town rows all give false. */
  function CheckAddressMatch(lookup: Lookup, postalCode: string, prefecture: string, cityTown: string): (r: bool)
    ensures var q := lookup(PostalKey(postalCode), NormalizeAddress(prefecture));
            r <==> q.Rows? && exists i :: 0 <= i < |q.rows| && Confirms(q.rows[i], NormalizeAddress(cityTown))
    ensures var q := lookup(PostalKey(postalCode), NormalizeAddress(prefecture));
            q.LookupFailed? || q == Rows([]) ==> !r
    ensures var q := lookup(PostalKey(postalCode), NormalizeAddress(prefecture));
            q.Rows? && (forall row :: row in q.rows ==> !Eligible(row)) ==> !r
    ensures var q := lookup(PostalKey(postalCode), NormalizeAddress(prefecture));
            NormalizeAddress(cityTown) == "" ==> (r <==> q.Rows? && exists row :: row in q.rows && Eligible(row))
  {
    var input := NormalizeAddress(cityTown);
    match lookup(PostalKey(postalCode), NormalizeAddress(prefecture))
    case LookupFailed => false
    case Rows(rows) =>
      if rows == [] then false
      else
        var found := FirstWhere(row => LoopAccepts(row, input), rows, 0);
        assert input == [] ==> forall row :: row in rows && Eligible(row) ==> Confirms(row, input) by {
          if input == [] {
            forall row | row in rows && Eligible(row) ensures Confirms(row, input) {
              assert OccursAt(MasterAddress(row), input, 0);
            }
          }
        }
        found.Some?
  }

  /** Normalising the city/town before the call changes nothing. */
  lemma InputNormalFormSuffices(lookup: Lookup, postalCode: string, prefecture: string, cityTown: string)
    ensures CheckAddressMatch(lookup, postalCode, prefecture, NormalizeAddress(cityTown))
         == CheckAddressMatch(lookup, postalCode, prefecture, cityTown)
    ensures CheckAddressMatch(lookup, postalCode, NormalizeAddress(prefecture), cityTown)
         == CheckAddressMatch(lookup, postalCode, prefecture, cityTown)
  {
    NormalizeIdempotent(cityTown);
    NormalizeIdempotent(prefecture);
  }

  /** Full-width digits in the city/town match the master as their ASCII forms do. */
  lemma FullWidthInputMatchesAlike(lookup: Lookup, postalCode: string, prefecture: string, cityTown: string)
    ensures CheckAddressMatch(lookup, postalCode, prefecture, FoldDigits(cityTown))
         == CheckAddressMatch(lookup, postalCode, prefecture, cityTown)
  {
    FullWidthDigitsIrrelevant(cityTown);
  }
}
