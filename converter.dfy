/** Package converter: the conversion between an id and the url id that
    appears in a short url. */
module Converter {
  import opened Errors
  import opened Record
  import opened Decimal

  /** ConvertToURLID: never fails; the text is the canonical decimal form. */
  function ConvertToURLID(id: Int64): (r: (string, Option<Error>))
    ensures r.1 == None
    ensures IsCanonical(r.0) && ParseInt(r.0) == Some(id)
  {
    FormatIntIsCanonical(id);
    FormatThenParse(id);
    (FormatInt(id), None)
  }

  /** ConvertToID: the parsed id, or (0, ErrURLFormat) for any text that
      strconv.ParseInt rejects. */
  function ConvertToID(urlID: string): (r: (Int64, Option<Error>))
    ensures r.1 == None || r == (0, Some(ErrURLFormat))
    ensures r.1 == None <==> IsSignedDecimal(urlID) && MinInt64 <= SignedValue(urlID) <= MaxInt64
    ensures r.1 == None ==> r.0 == SignedValue(urlID)
  {
    ParseIntExactly(urlID);
    match ParseInt(urlID)
    case Some(id) => (id, None)
    case None => (0, Some(ErrURLFormat))
  }

  /** The two conversions are inverses on ids: decoding the url id of an id
      gives the id back without error. */
  lemma RoundTrip(id: Int64)
    ensures ConvertToID(ConvertToURLID(id).0) == (id, None)
  {
  }

  /** In the other direction they are inverses only on canonical text: the
      decoder also accepts a '+' sign and leading zeros, which encoding does
      not reproduce. */
  lemma CanonicalRoundTrip(urlID: string)
    requires IsCanonical(urlID) && ConvertToID(urlID).1 == None
    ensures ConvertToURLID(ConvertToID(urlID).0).0 == urlID
  {
    ParseThenFormat(urlID);
  }

  lemma NonCanonicalAlias()
    ensures ConvertToID("007") == (7, None)
    ensures ConvertToURLID(7).0 == "7"
  {
    assert Unsigned("007") == "007";
    assert "007"[..2] == "00" && "00"[..1] == "0";
    assert DigitsValue("007") == 7;
  }

  /** The cases the package's tests exercise. */
  lemma EncodeExample()
    ensures ConvertToURLID(12345).0 == "12345"
  {
    assert FormatNat(1) == "1";
    assert FormatNat(12) == "12";
    assert FormatNat(123) == "123";
    assert FormatNat(1234) == "1234";
  }

  lemma DecodeExample()
    ensures ConvertToID("67890") == (67890, None)
  {
    var s := "67890";
    assert Unsigned(s) == s;
    assert s[..4] == "6789" && "6789"[..3] == "678" && "678"[..2] == "67" && "67"[..1] == "6";
    assert DigitsValue(s) == 67890;
  }

  lemma MalformedExamples()
    ensures ConvertToID("abcde") == (0, Some(ErrURLFormat))
    ensures ConvertToID("") == (0, Some(ErrURLFormat))
    ensures ConvertToID("-") == (0, Some(ErrURLFormat))
  {
    assert !IsDigit("abcde"[0]);
    assert Unsigned("-") == "";
  }
}
