/** Reading the Authorization header: RFC 7617, section 2, on top of the base64 codec. */
module Authorization {
  import opened Rfc4648
  import opened Base64Tables
  import opened Base64

  const COLON: Byte := 58
  const BASIC: seq<Byte> := [66, 97, 115, 105, 99]
  const BEARER: seq<Byte> := [66, 101, 97, 114, 101, 114]
  const SPACE: Byte := 32

  datatype Parsed =
    | Credentials(user: seq<Byte>, password: seq<Byte>)
    | Token(token: seq<Byte>)
    | BadRequest
    | BadEncoding
    | UnhandledType

  predicate IsSeparator(c: Byte) { c == SPACE || c == 9 || c == 10 }

  /** `boost::split` on blanks, tabs and newlines, without merging adjacent separators. */
  function Split(text: seq<Byte>): (fields: seq<seq<Byte>>)
    ensures |fields| >= 1
  {
    if text == [] then [[]]
    else
      var rest := Split(text[1..]);
      if IsSeparator(text[0]) then [[]] + rest else [[text[0]] + rest[0]] + rest[1..]
  }

  /** The fields with the separators between them. */
  function Interleaved(fields: seq<seq<Byte>>, separators: seq<Byte>): seq<Byte>
    requires |fields| == |separators| + 1
  {
    if separators == [] then fields[0] else fields[0] + [separators[0]] + Interleaved(fields[1..], separators[1..])
  }

  /** No field contains a blank, a tab or a newline, and with single ones of these between the fields the text is back. */
  lemma {:induction false} SplitInterleaves(text: seq<Byte>) returns (separators: seq<Byte>)
    ensures |Split(text)| == |separators| + 1 && Interleaved(Split(text), separators) == text
    ensures forall i :: 0 <= i < |separators| ==> separators[i] == 32 || separators[i] == 9 || separators[i] == 10
    ensures forall i, c :: 0 <= i < |Split(text)| && c in Split(text)[i] ==> c != 32 && c != 9 && c != 10
  {
    if text == [] {
      separators := [];
    } else {
      var rest := Split(text[1..]);
      var between := SplitInterleaves(text[1..]);
      if IsSeparator(text[0]) {
        separators := [text[0]] + between;
        assert separators[1..] == between && Split(text)[1..] == rest;
      } else {
        separators := between;
        assert Split(text)[1..] == rest[1..];
      }
    }
  }

  /** A first field without separators is split off at the separator that follows it. */
  lemma {:induction false} SplitFirst(field: seq<Byte>, rest: seq<Byte>)
    requires forall i :: 0 <= i < |field| ==> !IsSeparator(field[i])
    ensures Split(field + [SPACE] + rest) == [field] + Split(rest)
    ensures Split(field) == [field]
  {
    var text := field + [SPACE] + rest;
    if field == [] {
      assert text[1..] == rest;
    } else {
      SplitFirst(field[1..], rest);
      assert text[1..] == field[1..] + [SPACE] + rest;
      assert [field[0]] + field[1..] == field;
    }
  }

  /** The position of the first colon, or the length of the value. */
  function FirstColon(value: seq<Byte>): (at: nat)
    ensures at <= |value|
    ensures COLON !in value[..at]
    ensures at < |value| ==> value[at] == COLON
  {
    if value == [] then 0
    else if value[0] == COLON then 0
    else
      var at := FirstColon(value[1..]);
      assert value[..at + 1] == [value[0]] + value[1..][..at];
      at + 1
  }

  /** The user name and password of a decoded value, or a bad request. */
  method SplitCredentials(value: seq<Byte>) returns (r: Parsed)
    ensures r.Credentials? <==> COLON in value
    ensures r.Credentials? ==> value == r.user + [COLON] + r.password && COLON !in r.user
    ensures !r.Credentials? ==> r == BadRequest
  {
    var splitIndex := FirstColon(value);
    if splitIndex != |value| {
      var password: seq<Byte> := [];
      if splitIndex < |value| - 1 {
        password := value[splitIndex + 1..];
      }
      assert value == value[..splitIndex] + [COLON] + value[splitIndex + 1..];
      r := Credentials(value[..splitIndex], password);
    } else {
      assert value[..splitIndex] == value;
      r := BadRequest;
    }
  }

  /** What section 2 of RFC 7617 makes of a header: the scheme, then base64 of user, colon and password. */
  ghost predicate Reads(header: seq<Byte>, user: seq<Byte>, password: seq<Byte>) {
    var fields := Split(header);
    && |fields| >= 2 && fields[0] == BASIC
    && WellFormed(fields[1])
    && Decode(fields[1]) == user + [COLON] + password
    && COLON !in user
  }

  method ParseAuthorization(order: ByteOrder, header: seq<Byte>) returns (r: Parsed)
    ensures r.Credentials? ==> Reads(header, r.user, r.password)
    ensures forall user, password :: Reads(header, user, password) ==> r == Credentials(user, password)
    ensures r.Token? <==> |Split(header)| >= 2 && Split(header)[0] == BEARER
    ensures r.Token? ==> r.token == Split(header)[1]
    ensures r == BadEncoding <==>
      |Split(header)| >= 2 && Split(header)[0] == BASIC && !WellFormed(Split(header)[1])
    ensures r == UnhandledType <==>
      |Split(header)| >= 2 && Split(header)[0] != BASIC && Split(header)[0] != BEARER
  {
    var fields := Split(header);
    if |fields| < 2 {
      return BadRequest;
    }
    if fields[0] == BASIC {
      assert BASIC[1] != BEARER[1];
      var decoded := FromBase64(order, fields[1]);
      if decoded.Err? {
        return BadEncoding;
      }
      r := SplitCredentials(decoded.value);
      forall user, password | Reads(header, user, password) ensures r == Credentials(user, password) {
        var value := user + [COLON] + password;
        assert value[|user|] == COLON;
        UniqueSplit(user, password, r.user, r.password);
      }
    } else if fields[0] == BEARER {
      r := Token(fields[1]);
    } else {
      r := UnhandledType;
    }
  }

  lemma {:induction false} ColonAfterUser(user: seq<Byte>, password: seq<Byte>)
    requires COLON !in user
    ensures FirstColon(user + [COLON] + password) == |user|
  {
    if user != [] {
      ColonAfterUser(user[1..], password);
      assert (user + [COLON] + password)[1..] == user[1..] + [COLON] + password;
    }
  }

  /** The first colon separates: no value splits in two ways. */
  lemma UniqueSplit(user: seq<Byte>, password: seq<Byte>, user': seq<Byte>, password': seq<Byte>)
    requires user + [COLON] + password == user' + [COLON] + password'
    requires COLON !in user && COLON !in user'
    ensures user == user' && password == password'
  {
    var value := user + [COLON] + password;
    ColonAfterUser(user, password);
    ColonAfterUser(user', password');
    assert user == value[..|user|] && user' == value[..|user'|];
    assert password == value[|user| + 1..] && password' == value[|user'| + 1..];
  }

  lemma EncodedHasNoSeparator(data: seq<Byte>, i: nat)
    requires i < |Encode(data)|
    ensures !IsSeparator(Encode(data)[i])
  {
    var sextets := EncodedSextets(data);
    if i < |sextets| {
      ValueOfCharOf(sextets[i]);
    }
  }

  /** The header a client sends for a user name without colon and any password. */
  ghost function BasicHeader(user: seq<Byte>, password: seq<Byte>): seq<Byte> {
    BASIC + [SPACE] + Encode(user + [COLON] + password)
  }

  /** It is read back as exactly that pair, and as no other. */
  lemma HeaderRoundTrip(user: seq<Byte>, password: seq<Byte>)
    requires COLON !in user
    ensures Reads(BasicHeader(user, password), user, password)
    ensures forall u, p :: Reads(BasicHeader(user, password), u, p) ==> u == user && p == password
  {
    var value := user + [COLON] + password;
    var text := Encode(value);
    forall i | 0 <= i < |text| ensures !IsSeparator(text[i]) {
      EncodedHasNoSeparator(value, i);
    }
    SplitFirst(BASIC, text);
    SplitFirst(text, []);
    DecodeOfEncode(value);
    forall u, p | Reads(BasicHeader(user, password), u, p) ensures u == user && p == password {
      UniqueSplit(user, password, u, p);
    }
  }

  lemma SameHeader(u: seq<Byte>, v: seq<Byte>, password: seq<Byte>)
    ensures BasicHeader(u + [COLON] + v, password) == BasicHeader(u, v + [COLON] + password)
  {
    assert u + [COLON] + v + [COLON] + password == u + [COLON] + (v + [COLON] + password);
  }

  /**
   * A user name with a colon does not come back: the header is read as what precedes its first colon, and the rest of
   * it goes to the password.
   */
  lemma ColonInUserIsLost(u: seq<Byte>, v: seq<Byte>, password: seq<Byte>)
    requires COLON !in u
    ensures Reads(BasicHeader(u + [COLON] + v, password), u, v + [COLON] + password)
    ensures forall user, rest :: Reads(BasicHeader(u + [COLON] + v, password), user, rest) ==> user == u && rest == v + [COLON] + password
  {
    SameHeader(u, v, password);
    HeaderRoundTrip(u, v + [COLON] + password);
  }

  /** So a pair comes back exactly when its user name has no colon. */
  lemma HeaderRoundTripIff(user: seq<Byte>, password: seq<Byte>)
    ensures Reads(BasicHeader(user, password), user, password) <==> COLON !in user
  {
    if COLON !in user {
      HeaderRoundTrip(user, password);
    }
  }
}
