/** Header fields, their names, and the static table of Appendix A of RFC 7541. */
module Headers {
  import opened Bits
  import opened Errors

  type Bytes = seq<byte>

  datatype Name = Field(name: Bytes) | Authority | Method | Scheme | Path | Protocol | Status {
    function AsSlice(): Bytes {
      match this
      case Field(n) => n
      case Authority => Ascii(":authority")
      case Method => Ascii(":method")
      case Scheme => Ascii(":scheme")
      case Path => Ascii(":path")
      case Protocol => Ascii(":protocol")
      case Status => Ascii(":status")
    }
  }

  /** A header field; the value of a pseudo-header is its byte string. */
  datatype Header = Header(name: Name, value: Bytes) {
    /** The size of an entry, section 4.1 of RFC 7541. */
    function Len(): (r: nat)
      ensures r >= 32
    {
      match name
      case Field(n) => 32 + |n| + |value|
      case Authority => 32 + 10 + |value|
      case Method => 32 + 7 + |value|
      case Scheme => 32 + 7 + |value|
      case Path => 32 + 5 + |value|
      case Protocol => 32 + 9 + |value|
      case Status => 32 + 7 + 3
    }

    /** Fields whose values are not worth a table entry. */
    predicate SkipValueIndex() {
      match name
      case Field(n) =>
        n in [Ascii("content-length"), Ascii("age"), Ascii("authorization"), Ascii("etag"),
              Ascii("if-modified-since"), Ascii("if-none-match"), Ascii("location"),
              Ascii("cookie"), Ascii("set-cookie")]
      case Path => true
      case _ => false
    }
  }

  function Ascii(s: string): (r: Bytes)
    ensures |r| == |s|
  {
    seq(|s|, i requires 0 <= i < |s| => s[i] as int % 256)
  }

  function Lower(b: byte): byte {
    if 65 <= b <= 90 then b + 32 else b
  }

  predicate EqIgnoreCase(a: Bytes, b: Bytes) {
    |a| == |b| && forall i :: 0 <= i < |a| ==> Lower(a[i]) == Lower(b[i])
  }

  /** What the header library decides about the values of pseudo-headers. */
  datatype Values = Values(utf8: Bytes -> bool, status: Bytes -> bool)

  /** Whether `name` admits `value`. */
  predicate ValidValue(v: Values, name: Name, value: Bytes) {
    match name
    case Field(_) => true
    case Method => true
    case Status => v.status(value)
    case _ => v.utf8(value)
  }

  /** A header that the typed representation can hold and whose name is read back as itself. */
  predicate WellFormed(v: Values, h: Header) {
    && ValidValue(v, h.name, h.value)
    && (h.name.Field? ==> h.name.name != [] && h.name.name[0] != ':' as int)
  }

  /** A name that starts with a colon must be one of the six pseudo-headers. */
  function PseudoName(name: Bytes): Option<Name> {
    if name == Ascii(":authority") then Some(Authority)
    else if name == Ascii(":method") then Some(Method)
    else if name == Ascii(":scheme") then Some(Scheme)
    else if name == Ascii(":path") then Some(Path)
    else if name == Ascii(":protocol") then Some(Protocol)
    else if name == Ascii(":status") then Some(Status)
    else None
  }

  /** A header from two literal strings. An empty name is reported as missing input. */
  function NewHeader(v: Values, name: Bytes, value: Bytes): Result<Header> {
    if name == [] then Err(NeedMore(UnexpectedEndOfStream))
    else if name[0] == ':' as int then
      match PseudoName(name)
      case None => Err(InvalidPseudoheader)
      case Some(n) => if ValidValue(v, n, value) then Ok(Header(n, value)) else Err(InvalidUtf8)
    else Ok(Header(Field(name), value))
  }

  /** A header from an indexed name and a literal value. */
  function IntoEntry(v: Values, name: Name, value: Bytes): Result<Header> {
    if ValidValue(v, name, value) then Ok(Header(name, value))
    else Err(if name.Status? then InvalidStatusCode else InvalidUtf8)
  }

  lemma NewHeaderInverse(v: Values, h: Header)
    requires WellFormed(v, h)
    ensures NewHeader(v, h.name.AsSlice(), h.value) == Ok(h)
  {
    if !h.name.Field? {
      var n := h.name.AsSlice();
      assert n[0] == ':' as int;
      assert |Ascii(":scheme")| == |Ascii(":method")| == |Ascii(":status")|;
      assert Ascii(":scheme")[2] == 'c' as int && Ascii(":method")[2] == 'e' as int
        && Ascii(":status")[2] == 't' as int;
      assert PseudoName(n) == Some(h.name);
    }
  }

  // ===== static table =====

  const FIRST_FIELD := 15
  const STATIC_LEN := 61

  /** The names of entries 15 to 61. */
  function FieldName(i: nat): string
    requires FIRST_FIELD <= i <= STATIC_LEN
  {
    match i
    case 15 => "accept-charset"
    case 16 => "accept-encoding"
    case 17 => "accept-language"
    case 18 => "accept-ranges"
    case 19 => "accept"
    case 20 => "access-control-allow-origin"
    case 21 => "age"
    case 22 => "allow"
    case 23 => "authorization"
    case 24 => "cache-control"
    case 25 => "content-disposition"
    case 26 => "content-encoding"
    case 27 => "content-language"
    case 28 => "content-length"
    case 29 => "content-location"
    case 30 => "content-range"
    case 31 => "content-type"
    case 32 => "cookie"
    case 33 => "date"
    case 34 => "etag"
    case 35 => "expect"
    case 36 => "expires"
    case 37 => "from"
    case 38 => "host"
    case 39 => "if-match"
    case 40 => "if-modified-since"
    case 41 => "if-none-match"
    case 42 => "if-range"
    case 43 => "if-unmodified-since"
    case 44 => "last-modified"
    case 45 => "link"
    case 46 => "location"
    case 47 => "max-forwards"
    case 48 => "proxy-authenticate"
    case 49 => "proxy-authorization"
    case 50 => "range"
    case 51 => "referer"
    case 52 => "refresh"
    case 53 => "retry-after"
    case 54 => "server"
    case 55 => "set-cookie"
    case 56 => "strict-transport-security"
    case 57 => "transfer-encoding"
    case 58 => "user-agent"
    case 59 => "vary"
    case 60 => "via"
    case _ => "www-authenticate"
  }

  function GZIP_DEFLATE(): Bytes {
    Ascii("gzip, deflate")
  }

  function GetStatic(i: nat): Header
    requires 1 <= i <= STATIC_LEN
  {
    match i
    case 1 => Header(Authority, [])
    case 2 => Header(Method, Ascii("GET"))
    case 3 => Header(Method, Ascii("POST"))
    case 4 => Header(Path, Ascii("/"))
    case 5 => Header(Path, Ascii("/index.html"))
    case 6 => Header(Scheme, Ascii("http"))
    case 7 => Header(Scheme, Ascii("https"))
    case 8 => Header(Status, Ascii("200"))
    case 9 => Header(Status, Ascii("204"))
    case 10 => Header(Status, Ascii("206"))
    case 11 => Header(Status, Ascii("304"))
    case 12 => Header(Status, Ascii("400"))
    case 13 => Header(Status, Ascii("404"))
    case 14 => Header(Status, Ascii("500"))
    case _ => Header(Field(Ascii(FieldName(i))), if i == 16 then GZIP_DEFLATE() else [])
  }

  /** The first static field entry, from `i` on, with the given name. */
  function FindField(name: Bytes, i: nat): (r: Option<nat>)
    requires FIRST_FIELD <= i <= STATIC_LEN + 1
    ensures r.Some? ==> i <= r.value <= STATIC_LEN && Ascii(FieldName(r.value)) == name
    ensures r.None? ==> forall j :: i <= j <= STATIC_LEN ==> Ascii(FieldName(j)) != name
    decreases STATIC_LEN + 1 - i
  {
    if i == STATIC_LEN + 1 then None
    else if Ascii(FieldName(i)) == name then Some(i)
    else FindField(name, i + 1)
  }

  /** The static entry with the name of `h`, and whether it also has its value. */
  function IndexStatic(h: Header): (r: Option<(nat, bool)>)
    ensures r.Some? ==> 1 <= r.value.0 <= STATIC_LEN
  {
    match h.name
    case Field(n) =>
      (match FindField(n, FIRST_FIELD)
       case None => None
       case Some(i) => Some((i, i == 16 && EqIgnoreCase(h.value, GZIP_DEFLATE()))))
    case Authority => Some((1, false))
    case Method =>
      if h.value == Ascii("GET") then Some((2, true))
      else if h.value == Ascii("POST") then Some((3, true))
      else Some((2, false))
    case Scheme =>
      if h.value == Ascii("http") then Some((6, true))
      else if h.value == Ascii("https") then Some((7, true))
      else Some((6, false))
    case Path =>
      if h.value == Ascii("/") then Some((4, true))
      else if h.value == Ascii("/index.html") then Some((5, true))
      else Some((4, false))
    case Protocol => None
    case Status =>
      if h.value == Ascii("200") then Some((8, true))
      else if h.value == Ascii("204") then Some((9, true))
      else if h.value == Ascii("206") then Some((10, true))
      else if h.value == Ascii("304") then Some((11, true))
      else if h.value == Ascii("400") then Some((12, true))
      else if h.value == Ascii("404") then Some((13, true))
      else if h.value == Ascii("500") then Some((14, true))
      else Some((8, false))
  }

  /** The one change the codec makes to a header: the spelling of a static accept-encoding value. */
  function Normalize(h: Header): Header {
    if h.name == Field(Ascii("accept-encoding")) && EqIgnoreCase(h.value, GZIP_DEFLATE())
    then Header(h.name, GZIP_DEFLATE())
    else h
  }

  /** The static index names the header's name, and with a value match the whole normalised header. */
  lemma IndexStaticSound(h: Header)
    ensures match IndexStatic(h)
            case None => Normalize(h) == h
            case Some((n, full)) =>
              && GetStatic(n).name == h.name
              && (full ==> GetStatic(n) == Normalize(h))
              && (!full ==> Normalize(h) == h)
  {
    FindAcceptEncoding();
    hide Ascii, EqIgnoreCase, GZIP_DEFLATE, FindField;
    if h.name.Field? {
      var found := FindField(h.name.name, FIRST_FIELD);
    }
  }

  lemma FindAcceptEncoding()
    ensures FindField(Ascii("accept-encoding"), FIRST_FIELD) == Some(16)
    ensures FieldName(16) == "accept-encoding"
  {
    assert FieldName(15) == "accept-charset" && FieldName(16) == "accept-encoding";
    assert |Ascii("accept-charset")| != |Ascii("accept-encoding")|;
    assert FindField(Ascii("accept-encoding"), 16) == Some(16);
  }

  /** A field whose value is never indexed always has a static name. */
  lemma SkippedIsStatic(h: Header)
    requires h.SkipValueIndex()
    ensures IndexStatic(h).Some?
  {
    hide Ascii, FindField;
    if h.name.Field? {
      assert FieldName(28) == "content-length" && FieldName(21) == "age" && FieldName(23) == "authorization";
      assert FieldName(34) == "etag" && FieldName(40) == "if-modified-since" && FieldName(41) == "if-none-match";
      assert FieldName(46) == "location" && FieldName(32) == "cookie" && FieldName(55) == "set-cookie";
    }
  }
}
