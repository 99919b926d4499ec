/** IPv4 addresses and prefixes in the textual form Go's net and net/netip read and write.
    Both parsers accept exactly the canonical dotted quad: four decimal fields without
    leading zeros, each at most 255. */
module Ipv4 {
  import opened Text

  newtype Byte = b: int | 0 <= b < 256

  datatype Addr = Addr(a: Byte, b: Byte, c: Byte, d: Byte)

  function Value(x: Addr): (n: nat)
    ensures n < 0x1_0000_0000
  {
    ((x.a as int * 256 + x.b as int) * 256 + x.c as int) * 256 + x.d as int
  }

  function Fields(x: Addr): seq<string> {
    [Decimal(x.a as int), Decimal(x.b as int), Decimal(x.c as int), Decimal(x.d as int)]
  }

  function Format(x: Addr): string {
    Join(Fields(x), '.')
  }

  function ParseByte(s: string): (r: Option<Byte>)
    ensures r.Some? <==> s != "" && AllDigits(s) && (|s| > 1 ==> s[0] != '0') && DigitsValue(s) < 256
    ensures r.Some? ==> Decimal(r.value as int) == s
  {
    if s != "" && AllDigits(s) && (|s| > 1 ==> s[0] != '0') && DigitsValue(s) < 256 then
      DecimalOfValue(s);
      Some(DigitsValue(s) as Byte)
    else None
  }

  /** A text is accepted as address x exactly when it is x's canonical form. */
  function Parse(s: string): (r: Option<Addr>)
    ensures forall x :: r == Some(x) <==> s == Format(x)
  {
    var p := Split(s, '.');
    var r := if |p| != 4 then None else
      match (ParseByte(p[0]), ParseByte(p[1]), ParseByte(p[2]), ParseByte(p[3]))
      case (Some(a), Some(b), Some(c), Some(d)) => Some(Addr(a, b, c, d))
      case _ => None;
    assert forall x :: r == Some(x) <==> s == Format(x) by {
      if r.Some? { assert p == Fields(r.value); }
      forall x | s == Format(x) ensures r == Some(x) { FormatSplits(x); }
    }
    r
  }

  lemma ParsedText(s: string)
    ensures Parse(s).Some? ==> s == Format(Parse(s).value)
  {
  }

  lemma FormatSplits(x: Addr)
    ensures Split(Format(x), '.') == Fields(x)
    ensures ParseByte(Fields(x)[0]) == Some(x.a) && ParseByte(Fields(x)[1]) == Some(x.b)
    ensures ParseByte(Fields(x)[2]) == Some(x.c) && ParseByte(Fields(x)[3]) == Some(x.d)
  {
    forall p | p in Fields(x) ensures '.' !in p { assert AllDigits(p); }
    SplitJoin(Fields(x), '.');
  }

  predicate AddressChar(c: char) { IsDigit(c) || c == '.' }

  lemma FormatAlphabet(x: Addr)
    ensures forall i :: 0 <= i < |Format(x)| ==> AddressChar(Format(x)[i])
    ensures Format(x) != ""
  {
    var f := Fields(x);
    assert Join(f, '.') == f[0] + "." + Join(f[1..], '.');
    assert Join(f[1..], '.') == f[1] + "." + Join(f[2..], '.') by { assert f[1..][1..] == f[2..]; }
    assert Join(f[2..], '.') == f[2] + "." + Join(f[3..], '.') by { assert f[2..][1..] == f[3..]; }
  }

  lemma ValueInjective(x: Addr, y: Addr)
    requires Value(x) == Value(y)
    ensures x == y
  {
    SameDigits((x.a as int * 256 + x.b as int) * 256 + x.c as int, x.d,
      (y.a as int * 256 + y.b as int) * 256 + y.c as int, y.d);
    SameDigits(x.a as int * 256 + x.b as int, x.c, y.a as int * 256 + y.b as int, y.c);
    SameDigits(x.a as int, x.b, y.a as int, y.b);
  }

  lemma SameDigits(m: int, x: Byte, n: int, y: Byte)
    requires m * 256 + x as int == n * 256 + y as int
    ensures m == n && x == y
  {
  }
}
