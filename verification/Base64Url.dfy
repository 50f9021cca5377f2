/** Padding-free base64url (section 5 of RFC 4648) and the forgiving decoder it is read back with. */
module Base64Url {
  import opened Wrappers
  import opened PyText
  import opened Bytes

  type sextet = v: int | 0 <= v < 64

  function EncodeSextet(v: sextet): char {
    if v < 26 then 'A' + v as char
    else if v < 52 then 'a' + (v - 26) as char
    else if v < 62 then '0' + (v - 52) as char
    else if v == 62 then '-' else '_'
  }

  /** The decoder also knows the standard alphabet's two last characters. */
  function DecodeSextet(c: char): Option<sextet> {
    if 'A' <= c <= 'Z' then Some((c - 'A') as int)
    else if 'a' <= c <= 'z' then Some((c - 'a') as int + 26)
    else if '0' <= c <= '9' then Some((c - '0') as int + 52)
    else if c == '-' || c == '+' then Some(62)
    else if c == '_' || c == '/' then Some(63)
    else None
  }

  lemma SextetRoundTrip(v: sextet)
    ensures DecodeSextet(EncodeSextet(v)) == Some(v) && EncodeSextet(v) !in ".=" && !IsSpace(EncodeSextet(v))
    ensures EncodeSextet(v) < 128 as char
  {}

  /** Three bytes become four characters; the padding of a short last group is dropped. */
  function Encode(data: seq<byte>): string {
    if |data| == 0 then ""
    else if |data| == 1 then [EncodeSextet(data[0] / 4), EncodeSextet(data[0] % 4 * 16)]
    else if |data| == 2 then
      [EncodeSextet(data[0] / 4), EncodeSextet(data[0] % 4 * 16 + data[1] / 16), EncodeSextet(data[1] % 16 * 4)]
    else
      [EncodeSextet(data[0] / 4), EncodeSextet(data[0] % 4 * 16 + data[1] / 16),
       EncodeSextet(data[1] % 16 * 4 + data[2] / 64), EncodeSextet(data[2] % 64)] + Encode(data[3..])
  }

  /** Bits kept from the previous character at each position inside a group of four. */
  predicate Leftover(position: nat, left: nat) {
    match position
    case 0 => true
    case 1 => left < 64
    case 2 => left < 16
    case 3 => left < 4
    case _ => false
  }

  /** CPython's lenient scan: characters outside the alphabet are skipped, enough padding ends the text, and an
      unfinished group at the end is an error. */
  function Scan(text: string, position: nat, left: nat, pads: nat): Option<seq<byte>>
    requires Leftover(position, left)
  {
    if text == "" then if position == 0 then Some([]) else None
    else if text[0] == '=' then
      if position >= 2 && position + pads + 1 >= 4 then Some([])
      else Scan(text[1..], position, left, if position >= 2 then pads + 1 else pads)
    else match DecodeSextet(text[0])
      case None => Scan(text[1..], position, left, pads)
      case Some(v) =>
        if position == 0 then Scan(text[1..], 1, v, 0)
        else if position == 1 then Emit(left * 4 + v / 16, Scan(text[1..], 2, v % 16, 0))
        else if position == 2 then Emit(left * 16 + v / 4, Scan(text[1..], 3, v % 4, 0))
        else Emit(left * 64 + v, Scan(text[1..], 0, 0, 0))
  }

  function Emit(b: byte, rest: Option<seq<byte>>): Option<seq<byte>> {
    match rest
    case None => None
    case Some(bs) => Some([b] + bs)
  }

  function Padding(n: nat): string {
    match (4 - n % 4) % 4
    case 1 => "="
    case 2 => "=="
    case 3 => "==="
    case _ => ""
  }

  predicate IsAscii(s: string) { forall i :: 0 <= i < |s| ==> s[i] < 128 as char }

  /** None stands for every exception of the decoder. */
  function Decode(text: string): Option<seq<byte>> {
    if IsAscii(text) then Scan(text + Padding(|text|), 0, 0, 0) else None
  }

  lemma {:induction false} EncodedShape(data: seq<byte>)
    ensures |Encode(data)| == |data| / 3 * 4 + (if |data| % 3 == 0 then 0 else |data| % 3 + 1)
    ensures forall c :: c in Encode(data) ==> DecodeSextet(c).Some? && c !in ".=+/" && !IsSpace(c) && c < 128 as char
  {
    forall v: sextet ensures IsUrlChar(EncodeSextet(v)) { UrlChar(v); }
    hide EncodeSextet;
    hide IsUrlChar;
    EncodedLength(data);
    EncodedChars(data);
    forall c | c in Encode(data) ensures DecodeSextet(c).Some? && c !in ".=+/" && !IsSpace(c) && c < 128 as char {
      UrlCharIs(c);
    }
  }

  predicate IsUrlChar(c: char) { DecodeSextet(c).Some? && c !in ".=+/" && !IsSpace(c) && c < 128 as char }

  lemma UrlChar(v: sextet)
    ensures IsUrlChar(EncodeSextet(v))
  {
  }

  lemma UrlCharIs(c: char)
    requires IsUrlChar(c)
    ensures DecodeSextet(c).Some? && c !in ".=+/" && !IsSpace(c) && c < 128 as char
  {
  }

  lemma {:induction false} EncodedLength(data: seq<byte>)
    ensures |Encode(data)| == |data| / 3 * 4 + (if |data| % 3 == 0 then 0 else |data| % 3 + 1)
  {
    hide EncodeSextet;
    if |data| >= 3 { EncodedLength(data[3..]); }
  }

  lemma {:induction false} EncodedChars(data: seq<byte>)
    requires forall v: sextet :: IsUrlChar(EncodeSextet(v))
    ensures forall c :: c in Encode(data) ==> IsUrlChar(c)
  {
    hide EncodeSextet;
    hide IsUrlChar;
    if |data| >= 3 { EncodedChars(data[3..]); }
  }

  /** One full group read from the start. */
  lemma ScanGroup(a: sextet, b: sextet, c: sextet, d: sextet, rest: string)
    ensures Scan([EncodeSextet(a), EncodeSextet(b), EncodeSextet(c), EncodeSextet(d)] + rest, 0, 0, 0)
              == Emit(a * 4 + b / 16, Emit(b % 16 * 16 + c / 4, Emit(c % 4 * 64 + d, Scan(rest, 0, 0, 0))))
  {
    SextetRoundTrip(a);
    SextetRoundTrip(b);
    SextetRoundTrip(c);
    SextetRoundTrip(d);
    var s3 := [EncodeSextet(d)] + rest;
    var s2 := [EncodeSextet(c)] + s3;
    var s1 := [EncodeSextet(b)] + s2;
    var s0 := [EncodeSextet(a)] + s1;
    assert s0[1..] == s1 && s1[1..] == s2 && s2[1..] == s3 && s3[1..] == rest;
    assert [EncodeSextet(a), EncodeSextet(b), EncodeSextet(c), EncodeSextet(d)] + rest == s0;
    hide DecodeSextet;
    hide EncodeSextet;
    assert Scan(s3, 3, c % 4, 0) == Emit(c % 4 * 64 + d, Scan(rest, 0, 0, 0));
    assert Scan(s2, 2, b % 16, 0) == Emit(b % 16 * 16 + c / 4, Scan(s3, 3, c % 4, 0));
    assert Scan(s1, 1, a, 0) == Emit(a * 4 + b / 16, Scan(s2, 2, b % 16, 0));
    assert Scan(s0, 0, 0, 0) == Scan(s1, 1, a, 0);
  }

  lemma ScanOne(a: sextet, b: sextet)
    ensures Scan([EncodeSextet(a), EncodeSextet(b), '=', '='], 0, 0, 0) == Some([a * 4 + b / 16])
  {
    SextetRoundTrip(a);
    SextetRoundTrip(b);
    var s2 := ['=', '='];
    var s1 := [EncodeSextet(b)] + s2;
    var s0 := [EncodeSextet(a)] + s1;
    assert s0[1..] == s1 && s1[1..] == s2 && s2[1..] == ['='];
    assert [EncodeSextet(a), EncodeSextet(b), '=', '='] == s0;
    hide DecodeSextet;
    hide EncodeSextet;
    assert Scan(s2[1..], 2, b % 16, 1) == Some([]);
    assert Scan(s2, 2, b % 16, 0) == Some([]);
    assert [a * 4 + b / 16] + [] == [a * 4 + b / 16];
    assert Scan(s1, 1, a, 0) == Emit(a * 4 + b / 16, Scan(s2, 2, b % 16, 0));
    assert Scan(s0, 0, 0, 0) == Scan(s1, 1, a, 0);
  }

  lemma ScanTwo(a: sextet, b: sextet, c: sextet)
    ensures Scan([EncodeSextet(a), EncodeSextet(b), EncodeSextet(c), '='], 0, 0, 0)
              == Some([a * 4 + b / 16, b % 16 * 16 + c / 4])
  {
    SextetRoundTrip(a);
    SextetRoundTrip(b);
    SextetRoundTrip(c);
    var s3 := ['='];
    var s2 := [EncodeSextet(c)] + s3;
    var s1 := [EncodeSextet(b)] + s2;
    var s0 := [EncodeSextet(a)] + s1;
    assert s0[1..] == s1 && s1[1..] == s2 && s2[1..] == s3;
    assert [EncodeSextet(a), EncodeSextet(b), EncodeSextet(c), '='] == s0;
    hide DecodeSextet;
    hide EncodeSextet;
    assert Scan(s3, 3, c % 4, 0) == Some([]);
    assert [a * 4 + b / 16] + ([b % 16 * 16 + c / 4] + []) == [a * 4 + b / 16, b % 16 * 16 + c / 4];
    assert Scan(s2, 2, b % 16, 0) == Emit(b % 16 * 16 + c / 4, Scan(s3, 3, c % 4, 0));
    assert Scan(s1, 1, a, 0) == Emit(a * 4 + b / 16, Scan(s2, 2, b % 16, 0));
    assert Scan(s0, 0, 0, 0) == Scan(s1, 1, a, 0);
  }

  /** Regrouping bits: eight and eight into six, and back. */
  lemma SixFromEight(x: byte, y: byte)
    ensures var b := x % 4 * 16 + y / 16; b < 64 && b / 16 == x % 4 && b % 16 == y / 16
    ensures var c := x % 16 * 4 + y / 64; c < 64 && c / 4 == x % 16 && c % 4 == y / 64
  {}

  lemma EightFromSix(x: byte)
    ensures x / 4 * 4 + x % 4 == x && x / 16 * 16 + x % 16 == x && x / 64 * 64 + x % 64 == x
  {}

  /** A short last group, read with the padding the decoder adds. */
  lemma ScanTail(data: seq<byte>)
    requires |data| < 3
    ensures Scan(Encode(data) + Padding(|Encode(data)|), 0, 0, 0) == Some(data)
  {
    hide Scan;
    hide EncodeSextet;
    if |data| == 1 {
      EightFromSix(data[0]);
      SixFromEight(data[0], 0);
      ScanOne(data[0] / 4, data[0] % 4 * 16);
      assert Encode(data) + Padding(2) == [EncodeSextet(data[0] / 4), EncodeSextet(data[0] % 4 * 16), '=', '='];
      assert data == [data[0]];
    } else if |data| == 2 {
      var a, b, c := data[0] / 4, data[0] % 4 * 16 + data[1] / 16, data[1] % 16 * 4;
      EightFromSix(data[0]);
      EightFromSix(data[1]);
      SixFromEight(data[0], data[1]);
      SixFromEight(data[1], 0);
      ScanTwo(a, b, c);
      assert Encode(data) + Padding(3) == [EncodeSextet(a), EncodeSextet(b), EncodeSextet(c), '='];
      assert data == [data[0], data[1]];
    } else {
      ScanNothing();
      assert data == [] && Encode(data) + Padding(0) == "";
    }
  }

  lemma ScanNothing()
    ensures Scan("", 0, 0, 0) == Some([])
  {}

  lemma PaddingPeriod(n: nat)
    ensures Padding(n + 4) == Padding(n)
  {}

  lemma {:induction false} ScanEncoded(data: seq<byte>)
    ensures Scan(Encode(data) + Padding(|Encode(data)|), 0, 0, 0) == Some(data)
  {
    if |data| < 3 {
      ScanTail(data);
    } else {
      ScanEncoded(data[3..]);
      FullGroup(data);
    }
  }

  lemma {:induction false} FullGroup(data: seq<byte>)
    requires |data| >= 3
    requires Scan(Encode(data[3..]) + Padding(|Encode(data[3..])|), 0, 0, 0) == Some(data[3..])
    ensures Scan(Encode(data) + Padding(|Encode(data)|), 0, 0, 0) == Some(data)
  {
    hide Scan;
    hide EncodeSextet;
    hide Padding;
    var x, y, z, rest := data[0], data[1], data[2], data[3..];
    Regrouped(x, y, z);
    var a, b, c, d := x / 4, x % 4 * 16 + y / 16, y % 16 * 4 + z / 64, z % 64;
    var group := [EncodeSextet(a), EncodeSextet(b), EncodeSextet(c), EncodeSextet(d)];
    assert Encode(data) == group + Encode(rest);
    hide Encode;
    var code := Encode(rest);
    PaddingPeriod(|code|);
    Associate(group, code, Padding(|code|));
    ScanGroup(a, b, c, d, code + Padding(|code|));
    ThreeFirst(data);
  }

  lemma Associate(a: string, b: string, c: string)
    ensures (a + b) + c == a + (b + c)
  {
  }

  lemma ThreeFirst(data: seq<byte>)
    requires |data| >= 3
    ensures [data[0]] + ([data[1]] + ([data[2]] + data[3..])) == data
  {
  }

  lemma Regrouped(x: byte, y: byte, z: byte)
    ensures var a, b, c, d := x / 4, x % 4 * 16 + y / 16, y % 16 * 4 + z / 64, z % 64;
      && a < 64 && b < 64 && c < 64 && d < 64
      && a * 4 + b / 16 == x && b % 16 * 16 + c / 4 == y && c % 4 * 64 + d == z
  {
    EightFromSix(x);
    EightFromSix(y);
    EightFromSix(z);
    SixFromEight(x, y);
    SixFromEight(y, z);
  }

  /** Decoding undoes encoding for every byte string. */
  lemma DecodeEncode(data: seq<byte>)
    ensures Decode(Encode(data)) == Some(data)
  {
    ScanEncoded(data);
    EncodedShape(data);
    var s := Encode(data);
    forall i | 0 <= i < |s| ensures s[i] < 128 as char { assert s[i] in s; }
  }

  /** What the scan looks at. */
  function Significant(text: string): string {
    if text == "" then ""
    else (if text[0] == '=' || DecodeSextet(text[0]).Some? then [text[0]] else "") + Significant(text[1..])
  }

  /** Characters outside the alphabet are skipped wherever they stand. */
  lemma {:induction false} ScanIgnoresOthers(text: string, position: nat, left: nat, pads: nat)
    requires Leftover(position, left)
    ensures Scan(Significant(text), position, left, pads) == Scan(text, position, left, pads)
    decreases |text|
  {
    if text != "" {
      var c, rest, kept := text[0], text[1..], Significant(text[1..]);
      assert ([c] + kept)[1..] == kept && "" + kept == kept;
      if c == '=' {
        if !(position >= 2 && position + pads + 1 >= 4) {
          ScanIgnoresOthers(rest, position, left, if position >= 2 then pads + 1 else pads);
        }
      } else {
        match DecodeSextet(c) {
          case None => ScanIgnoresOthers(rest, position, left, pads);
          case Some(v) =>
            if position == 0 { ScanIgnoresOthers(rest, 1, v, 0); }
            else if position == 1 { ScanIgnoresOthers(rest, 2, v % 16, 0); }
            else if position == 2 { ScanIgnoresOthers(rest, 3, v % 4, 0); }
            else { ScanIgnoresOthers(rest, 0, 0, 0); }
        }
      }
    }
  }

  /** The two characters of its own that the URL alphabet has. */
  lemma UrlCharacters()
    ensures Encode([251, 255]) == "-_8"
  {
    assert EncodeSextet(62) == '-' && EncodeSextet(63) == '_' && EncodeSextet(60) == '8';
  }

  /** The first and the last vectors of section 10 of RFC 4648, without padding. */
  lemma KnownTexts()
    ensures Encode([102]) == "Zg"
    ensures Encode([102, 111, 111, 98, 97, 114]) == "Zm9vYmFy"
  {
    var data: seq<byte> := [102, 111, 111, 98, 97, 114];
    assert data[3..] == [98, 97, 114] && data[3..][3..] == [];
    assert Encode([98, 97, 114]) == "YmFy" + Encode([]);
    assert Encode(data) == "Zm9v" + Encode(data[3..]);
  }
}
