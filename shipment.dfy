/** The shipment record (the data-transfer object of data/dto/shipment.py) and the identity key
    that the reconciliation derives from its seventeen content fields. */
module Shipments {

  datatype Option<T> = None | Some(value: T)

  /** A `datetime` value. Only equality between timestamps matters to the model. */
  type Timestamp = int

  /** A Python float, carried as the text `str()` gives for it; float arithmetic is not modelled. */
  datatype PyFloat = PyFloat(text: string)

  /** The seventeen content fields, in the order the identity key lists them. */
  datatype Content = Content(
    time: int,
    weightKg: PyFloat,
    volumeM3: PyFloat,
    etaMin: int,
    status: string,
    forecastOriginWindVelocityMph: PyFloat,
    forecastOriginWindDirection: string,
    forecastOriginPrecipitationChance: PyFloat,
    forecastOriginPrecipitationKind: string,
    originSolarSystem: string,
    originPlanet: string,
    originCountry: string,
    originAddress: string,
    destinationSolarSystem: string,
    destinationPlanet: string,
    destinationCountry: string,
    destinationAddress: string)

  /** A shipment as scraped (`id`, `isDeleted` and `deletedAt` all None) or as read back from the store.
      `isDeleted` keeps the DTO's three states: None, Some(false), Some(true). */
  datatype Shipment = Shipment(
    id: Option<int>,
    content: Content,
    isDeleted: Option<bool>,
    deletedAt: Option<Timestamp>)

  /** A freshly scraped record: every field the DTO defaults is at its default. */
  function Scraped(c: Content): Shipment {
    Shipment(None, c, None, None)
  }

  /** Python truthiness of `shipment.is_deleted`: None and False are both falsy. */
  predicate IsDeleted(s: Shipment) {
    s.isDeleted == Some(true)
  }

  // ---------------------------------------------------------------------------
  // str() of an int

  function DigitChar(d: nat): (ch: char)
    requires d < 10
    ensures '0' <= ch <= '9'
  {
    (48 + d) as char
  }

  /** Decimal digits of `n`, without leading zeros. */
  function NatToString(n: nat): (r: string)
    ensures |r| >= 1
    ensures forall i :: 0 <= i < |r| ==> '0' <= r[i] <= '9'
  {
    if n < 10 then [DigitChar(n)] else NatToString(n / 10) + [DigitChar(n % 10)]
  }

  /** Python's `str(n)` for an int: a minus sign for negatives, then the decimal digits. */
  function IntToString(n: int): (r: string)
    ensures |r| >= 1
    ensures ',' !in r
    ensures n < 0 <==> r[0] == '-'
  {
    if n < 0 then "-" + NatToString(-n) else NatToString(n)
  }

  /** The number a decimal numeral denotes, read left to right (as `int()` reads digits). */
  function NatValue(s: string): nat
    decreases |s|
  {
    if s == [] then 0
    else
      var d := s[|s| - 1] as int - '0' as int;
      NatValue(s[..|s| - 1]) * 10 + (if 0 <= d < 10 then d else 0)
  }

  /** The number an optionally signed numeral denotes. */
  function IntValue(s: string): int {
    if |s| > 0 && s[0] == '-' then 0 - NatValue(s[1..]) as int else NatValue(s)
  }

  /** Reading the digits back gives the number: the text is its decimal numeral. */
  lemma {:induction false} NatToStringValue(n: nat)
    ensures NatValue(NatToString(n)) == n
  {
    if n >= 10 {
      var r := NatToString(n);
      assert r[..|r| - 1] == NatToString(n / 10);
      NatToStringValue(n / 10);
    }
  }

  lemma IntToStringValue(n: int)
    ensures IntValue(IntToString(n)) == n
  {
    var r := IntToString(n);
    if n < 0 {
      var digits := NatToString(-n);
      assert r == "-" + digits;
      assert r[1..] == digits;
      NatToStringValue(-n);
    } else {
      assert r == NatToString(n);
      assert r[0] != '-';
      NatToStringValue(n);
    }
  }

  /** Distinct ints print differently. */
  lemma IntToStringInjective(a: int, b: int)
    requires IntToString(a) == IntToString(b)
    ensures a == b
  {
    IntToStringValue(a);
    IntToStringValue(b);
  }

  // ---------------------------------------------------------------------------
  // The identity key

  /** `str()` of each content field, in the key's fixed order. */
  function FieldTexts(c: Content): (r: seq<string>)
    ensures |r| == 17
  {
    [IntToString(c.time),
     c.weightKg.text,
     c.volumeM3.text,
     IntToString(c.etaMin),
     c.status,
     c.forecastOriginWindVelocityMph.text,
     c.forecastOriginWindDirection,
     c.forecastOriginPrecipitationChance.text,
     c.forecastOriginPrecipitationKind,
     c.originSolarSystem,
     c.originPlanet,
     c.originCountry,
     c.originAddress,
     c.destinationSolarSystem,
     c.destinationPlanet,
     c.destinationCountry,
     c.destinationAddress]
  }

  /** Python's `sep.join(parts)`. */
  function Join(sep: char, parts: seq<string>): string
    decreases |parts|
  {
    if parts == [] then ""
    else if |parts| == 1 then parts[0]
    else parts[0] + [sep] + Join(sep, parts[1..])
  }

  /** Python's `s.split(sep)`: always at least one part. */
  function Split(sep: char, s: string): (r: seq<string>)
    ensures |r| >= 1
    decreases |s|
  {
    if s == [] then [""]
    else
      var rest := Split(sep, s[1..]);
      if s[0] == sep then [""] + rest else [[s[0]] + rest[0]] + rest[1..]
  }

  /** `_create_shipment_key`: the content fields' texts joined with commas. */
  function CreateShipmentKey(s: Shipment): string {
    Join(',', FieldTexts(s.content))
  }

  /** The fields whose text may contain a comma (the int fields never do) are free of commas. */
  predicate TextFieldsCommaFree(c: Content) {
    && ',' !in c.weightKg.text
    && ',' !in c.volumeM3.text
    && ',' !in c.status
    && ',' !in c.forecastOriginWindVelocityMph.text
    && ',' !in c.forecastOriginWindDirection
    && ',' !in c.forecastOriginPrecipitationChance.text
    && ',' !in c.forecastOriginPrecipitationKind
    && ',' !in c.originSolarSystem
    && ',' !in c.originPlanet
    && ',' !in c.originCountry
    && ',' !in c.originAddress
    && ',' !in c.destinationSolarSystem
    && ',' !in c.destinationPlanet
    && ',' !in c.destinationCountry
    && ',' !in c.destinationAddress
  }

  lemma {:induction false} JoinAppend(sep: char, a: seq<string>, b: seq<string>)
    requires |a| >= 1 && |b| >= 1
    ensures Join(sep, a + b) == Join(sep, a) + [sep] + Join(sep, b)
    decreases |a|
  {
    if |a| == 1 {
      assert (a + b)[1..] == b;
    } else {
      assert (a + b)[1..] == a[1..] + b;
      JoinAppend(sep, a[1..], b);
    }
  }

  /** Splitting a text that begins with a separator-free part peels that part off the first piece. */
  lemma {:induction false} SplitPrefix(sep: char, p: string, t: string)
    requires sep !in p
    ensures Split(sep, p + t) == [p + Split(sep, t)[0]] + Split(sep, t)[1..]
    decreases |p|
  {
    if p == [] {
      var r := Split(sep, t);
      assert p + t == t;
      assert p + r[0] == r[0];
      assert [r[0]] + r[1..] == r;
    } else {
      assert (p + t)[1..] == p[1..] + t;
      SplitPrefix(sep, p[1..], t);
      assert [p[0]] + (p[1..] + Split(sep, t)[0]) == p + Split(sep, t)[0];
    }
  }

  /** Joining separator-free parts and splitting again gives the parts back. */
  lemma {:induction false} SplitJoin(sep: char, parts: seq<string>)
    requires |parts| >= 1
    requires forall i :: 0 <= i < |parts| ==> sep !in parts[i]
    ensures Split(sep, Join(sep, parts)) == parts
    decreases |parts|
  {
    if |parts| == 1 {
      SplitPrefix(sep, parts[0], "");
      assert parts[0] + "" == parts[0];
    } else {
      var rest := Join(sep, parts[1..]);
      assert parts[0] + [sep] + rest == parts[0] + ([sep] + rest);
      SplitPrefix(sep, parts[0], [sep] + rest);
      assert ([sep] + rest)[1..] == rest;
      SplitJoin(sep, parts[1..]);
      assert Split(sep, [sep] + rest) == [""] + parts[1..];
      assert parts[0] + "" == parts[0];
      assert [parts[0]] + parts[1..] == parts;
    }
  }

  /** When no field text holds a comma, the key lists the seventeen field texts in their fixed order. */
  lemma KeyListsFields(s: Shipment)
    requires TextFieldsCommaFree(s.content)
    ensures Split(',', CreateShipmentKey(s)) == FieldTexts(s.content)
  {
    SplitJoin(',', FieldTexts(s.content));
  }

  /** The key reads only the content: surrogate id and lifecycle fields do not change it. */
  lemma KeyIgnoresLifecycle(s: Shipment, id: Option<int>, isDeleted: Option<bool>, deletedAt: Option<Timestamp>)
    ensures CreateShipmentKey(s.(id := id, isDeleted := isDeleted, deletedAt := deletedAt)) == CreateShipmentKey(s)
  {
  }

  /** The key is not injective: moving a comma-separated piece from the origin address to the origin
      country gives a different shipment with the same key. */
  lemma KeyCollision(c: Content, country: string, piece: string, rest: string)
    ensures var a := c.(originCountry := country, originAddress := piece + "," + rest);
            var b := c.(originCountry := country + "," + piece, originAddress := rest);
            a != b && CreateShipmentKey(Scraped(a)) == CreateShipmentKey(Scraped(b))
  {
    var a := c.(originCountry := country, originAddress := piece + "," + rest);
    var b := c.(originCountry := country + "," + piece, originAddress := rest);
    assert |a.originCountry| != |b.originCountry|;
    var front, back := FieldTexts(c)[..11], FieldTexts(c)[13..];
    assert FieldTexts(a) == front + ([country, piece + "," + rest] + back);
    assert FieldTexts(b) == (front + [country + "," + piece]) + ([rest] + back);
    JoinAppend(',', front, [country, piece + "," + rest] + back);
    JoinAppend(',', [country, piece + "," + rest], back);
    JoinAppend(',', front + [country + "," + piece], [rest] + back);
    JoinAppend(',', front, [country + "," + piece]);
    JoinAppend(',', [rest], back);
  }

  /** When no text field holds a comma, the key identifies the content: equal keys mean equal
      content fields. */
  lemma KeyDeterminesContent(a: Shipment, b: Shipment)
    requires TextFieldsCommaFree(a.content) && TextFieldsCommaFree(b.content)
    requires CreateShipmentKey(a) == CreateShipmentKey(b)
    ensures a.content == b.content
  {
    KeyListsFields(a);
    KeyListsFields(b);
    var fa, fb := FieldTexts(a.content), FieldTexts(b.content);
    assert fa == fb;
    assert fa[0] == fb[0] && fa[3] == fb[3];
    IntToStringInjective(a.content.time, b.content.time);
    IntToStringInjective(a.content.etaMin, b.content.etaMin);
    assert fa[1] == fb[1] && fa[2] == fb[2] && fa[5] == fb[5] && fa[7] == fb[7];
  }
}
