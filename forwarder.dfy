/**
 * The forwarder's own logic in rust/src/main.rs: reading a PCI address
 * given on the command line, and the per-packet rewrite that every
 * forwarded packet goes through.
 */
module Forwarder {
  import opened Wrappers
  import opened Bytes
  import Env

  // ---------------------------------------------------------------------
  // str::split on ':' and '.'
  // ---------------------------------------------------------------------

  /** The characters parse_pci_address splits on. */
  predicate IsSeparator(c: char)
  {
    c == ':' || c == '.'
  }

  predicate NoSeparator(s: string)
  {
    forall i :: 0 <= i < |s| ==> !IsSeparator(s[i])
  }

  /** The number of separators in s. */
  function SeparatorCount(s: string): nat
  {
    if |s| == 0 then 0 else (if IsSeparator(s[0]) then 1 else 0) + SeparatorCount(s[1..])
  }

  /**
   * `s.split(&[':', '.'][..])`: the pieces between separators, in order,
   * empty pieces included; a string without separators is one piece.
   */
  function Split(s: string): (parts: seq<string>)
    ensures |parts| >= 1
    decreases |s|
  {
    if |s| == 0 then [""]
    else
      var rest := Split(s[1..]);
      if IsSeparator(s[0]) then [""] + rest
      else [[s[0]] + rest[0]] + rest[1..]
  }

  /** One more piece than there are separators. */
  lemma {:induction false} SplitCount(s: string)
    ensures |Split(s)| == SeparatorCount(s) + 1
    decreases |s|
  {
    if |s| > 0 {
      SplitCount(s[1..]);
    }
  }

  /** No piece contains a separator. */
  lemma {:induction false} SplitPiecesHaveNoSeparator(s: string)
    ensures forall k :: 0 <= k < |Split(s)| ==> NoSeparator(Split(s)[k])
    decreases |s|
  {
    if |s| > 0 {
      SplitPiecesHaveNoSeparator(s[1..]);
      var rest := Split(s[1..]);
      if !IsSeparator(s[0]) {
        assert NoSeparator(rest[0]);
        assert Split(s)[0] == [s[0]] + rest[0];
        forall k | 1 <= k < |Split(s)|
          ensures NoSeparator(Split(s)[k])
        {
          assert Split(s)[k] == rest[k];
        }
      }
    }
  }

  /** A string without separators is a single piece. */
  lemma {:induction false} SplitPiece(a: string)
    requires NoSeparator(a)
    ensures Split(a) == [a]
    decreases |a|
  {
    if |a| > 0 {
      SplitPiece(a[1..]);
      assert [a[0]] + a[1..] == a;
    }
  }

  /** A piece, a separator and the rest split into the piece followed by the pieces of the rest. */
  lemma {:induction false} SplitAfterPiece(a: string, c: char, b: string)
    requires NoSeparator(a) && IsSeparator(c)
    ensures Split(a + [c] + b) == [a] + Split(b)
    decreases |a|
  {
    var s := a + [c] + b;
    if |a| == 0 {
      assert s[1..] == b;
    } else {
      assert s[1..] == a[1..] + [c] + b;
      SplitAfterPiece(a[1..], c, b);
      assert [a[0]] + a[1..] == a;
    }
  }

  /** The separators of s, in order. */
  function Separators(s: string): (seps: string)
    ensures |seps| == SeparatorCount(s)
    ensures forall i :: 0 <= i < |seps| ==> IsSeparator(seps[i])
  {
    if |s| == 0 then ""
    else if IsSeparator(s[0]) then [s[0]] + Separators(s[1..])
    else Separators(s[1..])
  }

  /** The pieces put back together with one separator between each two. */
  function Join(parts: seq<string>, seps: string): string
    requires |parts| == |seps| + 1
    decreases |seps|
  {
    if |seps| == 0 then parts[0]
    else parts[0] + [seps[0]] + Join(parts[1..], seps[1..])
  }

  /** Joining the pieces with the separators they were split on gives back the string. */
  lemma {:induction false} SplitJoin(s: string)
    ensures |Split(s)| == |Separators(s)| + 1
    ensures Join(Split(s), Separators(s)) == s
    decreases |s|
  {
    SplitCount(s);
    if |s| > 0 {
      SplitJoin(s[1..]);
      var rest, seps := Split(s[1..]), Separators(s[1..]);
      if IsSeparator(s[0]) {
        assert Split(s)[1..] == rest;
        assert Join(Split(s), Separators(s)) == "" + [s[0]] + Join(rest, seps);
      } else if |seps| == 0 {
        assert Join(Split(s), Separators(s)) == [s[0]] + rest[0];
      } else {
        assert Split(s)[1..] == rest[1..];
        assert Join(rest, seps) == rest[0] + [seps[0]] + Join(rest[1..], seps[1..]);
        assert Join(Split(s), Separators(s)) == [s[0]] + rest[0] + [seps[0]] + Join(rest[1..], seps[1..]);
      }
      assert [s[0]] + s[1..] == s;
    }
  }

  /** Conversely, pieces without separators joined by separators split back into those pieces. */
  lemma {:induction false} JoinSplit(parts: seq<string>, seps: string)
    requires |parts| == |seps| + 1
    requires forall k :: 0 <= k < |parts| ==> NoSeparator(parts[k])
    requires forall i :: 0 <= i < |seps| ==> IsSeparator(seps[i])
    ensures Split(Join(parts, seps)) == parts
    decreases |seps|
  {
    if |seps| == 0 {
      SplitPiece(parts[0]);
    } else {
      JoinSplit(parts[1..], seps[1..]);
      SplitAfterPiece(parts[0], seps[0], Join(parts[1..], seps[1..]));
      assert [parts[0]] + parts[1..] == parts;
    }
  }

  /** Which separator stands at a place makes no difference to the pieces. */
  lemma {:induction false} SplitSeparatorsInterchangeable(s: string, t: string)
    requires |s| == |t|
    requires forall i :: 0 <= i < |s| ==> s[i] == t[i] || (IsSeparator(s[i]) && IsSeparator(t[i]))
    ensures Split(s) == Split(t)
    decreases |s|
  {
    if |s| > 0 {
      SplitSeparatorsInterchangeable(s[1..], t[1..]);
    }
  }

  // ---------------------------------------------------------------------
  // u8::from_str_radix(_, 16)
  // ---------------------------------------------------------------------

  /** Why from_str_radix rejects a string (core::num::IntErrorKind). */
  datatype IntErrorKind = Empty | InvalidDigit | PosOverflow

  /** `char::to_digit(16)`: the value of a hexadecimal digit of either case. */
  function HexDigitValue(c: char): (v: Option<nat>)
    ensures v.Some? ==> v.value < 16
  {
    if '0' <= c <= '9' then Some(c as int - '0' as int)
    else if 'a' <= c <= 'f' then Some(c as int - 'a' as int + 10)
    else if 'A' <= c <= 'F' then Some(c as int - 'A' as int + 10)
    else None
  }

  /**
   * The digit loop of from_str_radix for u8: left to right, each digit
   * multiplies the value so far by 16 and adds itself; a character that is
   * not a digit fails, and so does a value that leaves the 8 bits.
   */
  function Digits(digits: string, acc: u8): Result<u8, IntErrorKind>
    decreases |digits|
  {
    if |digits| == 0 then Success(acc)
    else match HexDigitValue(digits[0])
      case None => Failure(InvalidDigit)
      case Some(x) =>
        if acc * 16 + x > 0xFF then Failure(PosOverflow)
        else Digits(digits[1..], acc * 16 + x)
  }

  /**
   * `u8::from_str_radix(s, 16)`: an empty string fails, one leading '+' is
   * allowed (but not alone), and the rest must be the digits of a value
   * below 256.
   */
  function FromStrRadix16(s: string): Result<u8, IntErrorKind>
  {
    if |s| == 0 then Failure(Empty)
    else if s[0] == '+' && |s| == 1 then Failure(InvalidDigit)
    else if s[0] == '+' then Digits(s[1..], 0)
    else Digits(s, 0)
  }

  /** A lower-case hexadecimal digit. */
  function HexDigit(v: nat): (c: char)
    requires v < 16
    ensures HexDigitValue(c) == Some(v)
  {
    if v < 10 then ('0' as int + v) as char else ('a' as int + v - 10) as char
  }

  /** The usual way to write a byte: two lower-case hexadecimal digits. */
  function Hex2(v: u8): (s: string)
    ensures |s| == 2 && NoSeparator(s)
  {
    [HexDigit(v / 16), HexDigit(v % 16)]
  }

  /** Two hexadecimal digits read back as the byte they were written from. */
  lemma FromStrRadix16Hex2(v: u8)
    ensures FromStrRadix16(Hex2(v)) == Success(v)
  {
    var s := Hex2(v);
    var high, low := v / 16, v % 16;
    assert s[1..][1..] == [];
    assert high * 16 + low == v;
    assert Digits(s[1..], high) == Success(v);
    assert Digits(s, 0) == Digits(s[1..], high);
  }

  /** A leading zero changes nothing, so one digit reads back too ("0" as well as "00"). */
  lemma LeadingZero(s: string)
    requires |s| >= 1 && s[0] != '+'
    ensures FromStrRadix16(['0'] + s) == FromStrRadix16(s)
  {
    assert (['0'] + s)[1..] == s;
  }

  /** Every character is a hexadecimal digit. */
  predicate AllHex(digits: string)
  {
    forall i :: 0 <= i < |digits| ==> HexDigitValue(digits[i]).Some?
  }

  function Pow16(n: nat): (p: nat)
    ensures p >= 1
  {
    if n == 0 then 1 else 16 * Pow16(n - 1)
  }

  /** The number that a string of hexadecimal digits denotes, most significant digit first. */
  function HexValue(digits: string): nat
    requires AllHex(digits)
  {
    if |digits| == 0 then 0
    else HexDigitValue(digits[0]).value * Pow16(|digits| - 1) + HexValue(digits[1..])
  }

  /**
   * The digit loop started from `acc` succeeds exactly when every character
   * is a digit and acc followed by those digits denotes a number below
   * 256, and then it yields that number.
   */
  lemma {:induction false} DigitsValue(digits: string, acc: u8)
    ensures Digits(digits, acc).Success? <==>
      AllHex(digits) && acc * Pow16(|digits|) + HexValue(digits) <= 0xFF
    ensures Digits(digits, acc).Success? ==>
      Digits(digits, acc).value == acc * Pow16(|digits|) + HexValue(digits)
    decreases |digits|
  {
    if |digits| > 0 {
      var rest := digits[1..];
      assert AllHex(digits) <==> HexDigitValue(digits[0]).Some? && AllHex(rest) by {
        if HexDigitValue(digits[0]).Some? && AllHex(rest) {
          forall i | 0 <= i < |digits|
            ensures HexDigitValue(digits[i]).Some?
          {
            if i > 0 {
              assert digits[i] == rest[i - 1];
            }
          }
        }
      }
      if HexDigitValue(digits[0]).Some? {
        var x := HexDigitValue(digits[0]).value;
        var p := Pow16(|rest|);
        assert acc * Pow16(|digits|) + x * p == (acc * 16 + x) * p;
        if acc * 16 + x <= 0xFF {
          DigitsValue(rest, acc * 16 + x);
        } else if AllHex(digits) {
          assert (acc * 16 + x) * p >= acc * 16 + x;
        }
      }
    }
  }

  /**
   * from_str_radix(s, 16) for u8 succeeds exactly when s, less one
   * optional leading '+', is a non-empty string of hexadecimal digits
   * denoting a number below 256; the value read is that number. Anything
   * else, a number over 0xFF included, is an error.
   */
  lemma FromStrRadix16Value(s: string)
    ensures var digits := if |s| > 0 && s[0] == '+' then s[1..] else s;
      && (FromStrRadix16(s).Success? <==> |digits| > 0 && AllHex(digits) && HexValue(digits) <= 0xFF)
      && (FromStrRadix16(s).Success? ==> FromStrRadix16(s).value == HexValue(digits))
  {
    var digits := if |s| > 0 && s[0] == '+' then s[1..] else s;
    DigitsValue(digits, 0);
  }

  // ---------------------------------------------------------------------
  // parse_pci_address
  // ---------------------------------------------------------------------

  /** Why parse_pci_address panics: the wrong number of parts, or a part that is not a byte. */
  datatype PciParseError = BadPartCount | BadPart(index: nat, kind: IntErrorKind)

  /**
   * parse_pci_address: split on ':' and '.', demand three parts, then
   * read bus, device and function, in that order, each as a hexadecimal
   * byte; the first failure is the one reported.
   */
  function ParsePciAddress(s: string): (r: Result<Env.PciAddress, PciParseError>)
    ensures r == Failure(BadPartCount) <==> SeparatorCount(s) != 2
  {
    SplitCount(s);
    var parts := Split(s);
    if |parts| != 3 then Failure(BadPartCount)
    else match FromStrRadix16(parts[0])
      case Failure(e) => Failure(BadPart(0, e))
      case Success(bus) =>
        match FromStrRadix16(parts[1])
        case Failure(e) => Failure(BadPart(1, e))
        case Success(device) =>
          match FromStrRadix16(parts[2])
          case Failure(e) => Failure(BadPart(2, e))
          case Success(func) => Success(Env.PciAddress(bus, device, func))
  }

  /** A success means three parts that each read as the corresponding field. */
  lemma ParsePciAddressSuccess(s: string)
    requires ParsePciAddress(s).Success?
    ensures var parts := Split(s);
      var a := ParsePciAddress(s).value;
      && |parts| == 3
      && FromStrRadix16(parts[0]) == Success(a.bus)
      && FromStrRadix16(parts[1]) == Success(a.device)
      && FromStrRadix16(parts[2]) == Success(a.func)
  {
  }

  /** "bb:dd.ff" reads back as the address it was written from. */
  lemma ParsePciAddressRoundTrip(a: Env.PciAddress)
    ensures ParsePciAddress(Hex2(a.bus) + ":" + Hex2(a.device) + "." + Hex2(a.func)) == Success(a)
  {
    var s := Hex2(a.bus) + ":" + Hex2(a.device) + "." + Hex2(a.func);
    assert s == Hex2(a.bus) + [':'] + (Hex2(a.device) + ['.'] + Hex2(a.func));
    SplitAfterPiece(Hex2(a.bus), ':', Hex2(a.device) + ['.'] + Hex2(a.func));
    SplitAfterPiece(Hex2(a.device), '.', Hex2(a.func));
    SplitPiece(Hex2(a.func));
    FromStrRadix16Hex2(a.bus);
    FromStrRadix16Hex2(a.device);
    FromStrRadix16Hex2(a.func);
  }

  /** Either separator may stand in either place: "b.d:f" reads as "b:d.f" does. */
  lemma ParsePciAddressSeparatorsInterchangeable(s: string, t: string)
    requires |s| == |t|
    requires forall i :: 0 <= i < |s| ==> s[i] == t[i] || (IsSeparator(s[i]) && IsSeparator(t[i]))
    ensures ParsePciAddress(s) == ParsePciAddress(t)
  {
    SplitSeparatorsInterchangeable(s, t);
  }

  // ---------------------------------------------------------------------
  // proc
  // ---------------------------------------------------------------------

  /** The first 12 bytes after proc: destination MAC 00:00:00:00:00:01, source MAC all zero. */
  const Header: seq<u8> := [0, 0, 0, 0, 0, 1, 0, 0, 0, 0, 0, 0]

  /** The packet contents after proc, for a packet of at least 12 bytes. */
  function ProcessedPacket(data: seq<u8>): (r: seq<u8>)
    requires |data| >= |Header|
  {
    Header + data[|Header|..]
  }

  /**
   * proc rewrites the two MAC addresses and nothing else: the packet keeps
   * its length, byte 5 becomes 1, bytes 0-4 and 6-11 become 0, every later
   * byte is kept, and doing it twice is doing it once.
   */
  lemma ProcessedPacketBytes(data: seq<u8>)
    requires |data| >= |Header|
    ensures var r := ProcessedPacket(data);
      && |r| == |data|
      && (forall i :: 0 <= i < |r| ==> r[i] == if i == 5 then 1 else if i < 12 then 0 else data[i])
      && ProcessedPacket(r) == r
  {
    var r := ProcessedPacket(data);
    assert r[|Header|..] == data[|Header|..];
  }

  /** The twelve byte writes of proc, in the order it makes them. */
  method WriteHeader(data: array<u8>)
    requires data.Length >= |Header|
    modifies data
    ensures data[..] == ProcessedPacket(old(data[..]))
  {
    ghost var before := data[..];
    data[0] := 0;
    data[1] := 0;
    data[2] := 0;
    data[3] := 0;
    data[4] := 0;
    data[5] := 1;
    data[6] := 0;
    data[7] := 0;
    data[8] := 0;
    data[9] := 0;
    data[10] := 0;
    data[11] := 0;
    assert data[..12] == Header;
    assert data[12..] == before[12..];
    assert data[..] == data[..12] + data[12..];
  }

  /**
   * proc: write the header, then send `length` bytes on output 0 and
   * leave the other outputs as they are. The packet buffer is PACKET_SIZE
   * (2048) bytes in the driver; here it is any buffer of at least 12 bytes.
   */
  method Proc(data: array<u8>, length: u16, outputLengths: array<u16>)
    requires data.Length >= |Header| && outputLengths.Length >= 1
    modifies data, outputLengths
    ensures data[..] == ProcessedPacket(old(data[..]))
    ensures outputLengths[..] == old(outputLengths[..])[0 := length]
  {
    WriteHeader(data);
    outputLengths[0] := length;
  }
}
