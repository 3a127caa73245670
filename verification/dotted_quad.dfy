/**
 Dotted-decimal text of an IPv4 address: the four address bytes in decimal,
 without leading zeros, separated by '.'. `Format` is what `socket.inet_ntoa`
 returns for a 4-byte address; `Parse` is `socket.inet_aton` on text in that
 same four-part decimal form.
 */
module DottedQuad {
  import opened Wrappers
  import opened Wire

  predicate IsDigit(c: char) {
    '0' <= c <= '9'
  }

  predicate AllDigits(s: string) {
    forall i :: 0 <= i < |s| ==> IsDigit(s[i])
  }

  function DigitChar(d: nat): (c: char)
    requires d < 10
    ensures IsDigit(c)
    ensures c as int - '0' as int == d
  {
    ('0' as int + d) as char
  }

  function DigitValue(c: char): nat
    requires IsDigit(c)
  {
    c as int - '0' as int
  }

  /** The decimal text of `n`, most significant digit first. */
  function Decimal(n: nat): (s: string)
    ensures |s| >= 1
    ensures AllDigits(s)
    // no leading zero: the text starts with '0' only when it is "0"
    ensures s[0] == '0' <==> n == 0
    ensures n < 10 ==> |s| == 1
    ensures '.' !in s
    decreases n
  {
    if n < 10 then [DigitChar(n)] else Decimal(n / 10) + [DigitChar(n % 10)]
  }

  /** The number a string of decimal digits denotes. */
  function DecimalValue(s: string): nat
    requires AllDigits(s)
    decreases |s|
  {
    if |s| == 0 then 0 else DecimalValue(s[..|s| - 1]) * 10 + DigitValue(s[|s| - 1])
  }

  lemma {:induction false} DecimalRoundTrip(n: nat)
    ensures DecimalValue(Decimal(n)) == n
    decreases n
  {
    var s := Decimal(n);
    if n >= 10 {
      var t := Decimal(n / 10);
      assert s == t + [DigitChar(n % 10)];
      assert s[..|s| - 1] == t;
      DecimalRoundTrip(n / 10);
    }
  }

  /** One field of the dotted form: a decimal byte value, without leading zeros. */
  function ParseByte(s: string): (r: Option<byte>)
    ensures r.Some? ==> |s| >= 1 && AllDigits(s) && DecimalValue(s) == r.value as int
    ensures r.Some? ==> (|s| > 1 ==> s[0] != '0')
  {
    if |s| >= 1 && AllDigits(s) && (|s| == 1 || s[0] != '0') && DecimalValue(s) < 256
    then Some(DecimalValue(s) as byte)
    else None
  }

  lemma ParseDecimalByte(b: byte)
    ensures ParseByte(Decimal(b as nat)) == Some(b)
  {
    DecimalRoundTrip(b as nat);
  }

  /** The fields of `s` between the '.' separators, in order. */
  function Split(s: string): (fields: seq<string>)
    ensures |fields| >= 1
    decreases |s|
  {
    if |s| == 0 then [""]
    else
      var tail := Split(s[1..]);
      if s[0] == '.' then [""] + tail else [[s[0]] + tail[0]] + tail[1..]
  }

  lemma {:induction false} SplitField(a: string)
    requires '.' !in a
    ensures Split(a) == [a]
    decreases |a|
  {
    if |a| > 0 {
      assert a[0] in a;
      assert forall i :: 0 <= i < |a[1..]| ==> a[1..][i] == a[i + 1];
      SplitField(a[1..]);
      assert [a[0]] + a[1..] == a;
    }
  }

  lemma {:induction false} SplitSeparated(a: string, b: string)
    requires '.' !in a
    ensures Split(a + "." + b) == [a] + Split(b)
    decreases |a|
  {
    var s := a + "." + b;
    if |a| == 0 {
      assert s == "." + b;
      assert s[1..] == b;
    } else {
      assert a[0] in a;
      assert '.' !in a[1..] by {
        forall i | 0 <= i < |a[1..]| ensures a[1..][i] != '.' {
          assert a[1..][i] == a[i + 1];
        }
      }
      assert s[1..] == a[1..] + "." + b;
      SplitSeparated(a[1..], b);
      assert [a[0]] + a[1..] == a;
    }
  }

  /** The fields joined with '.' between neighbours. */
  function Join(fields: seq<string>): string
    requires |fields| >= 1
    decreases |fields|
  {
    if |fields| == 1 then fields[0] else fields[0] + "." + Join(fields[1..])
  }

  /** Splitting undoes joining, as long as no field contains a '.'. */
  lemma {:induction false} SplitJoin(fields: seq<string>)
    requires |fields| >= 1
    requires forall i :: 0 <= i < |fields| ==> '.' !in fields[i]
    ensures Split(Join(fields)) == fields
    decreases |fields|
  {
    if |fields| == 1 {
      SplitField(fields[0]);
    } else {
      SplitJoin(fields[1..]);
      SplitSeparated(fields[0], Join(fields[1..]));
    }
  }

  /** `socket.inet_ntoa`: the dotted-decimal text of a 4-byte address. */
  function Format(addr: seq<byte>): (text: string)
    requires |addr| == 4
    // exactly four '.'-separated fields, the decimal text of each address byte in order
    ensures Split(text) == [Decimal(addr[0] as nat), Decimal(addr[1] as nat),
                            Decimal(addr[2] as nat), Decimal(addr[3] as nat)]
  {
    var fields := [Decimal(addr[0] as nat), Decimal(addr[1] as nat),
                   Decimal(addr[2] as nat), Decimal(addr[3] as nat)];
    SplitJoin(fields);
    Join(fields)
  }

  /** The text has exactly four fields, the decimal text of each address byte in order. */
  lemma FormatFields(addr: seq<byte>)
    requires |addr| == 4
    ensures Split(Format(addr)) == [Decimal(addr[0] as nat), Decimal(addr[1] as nat),
                                    Decimal(addr[2] as nat), Decimal(addr[3] as nat)]
  {
    SplitJoin([Decimal(addr[0] as nat), Decimal(addr[1] as nat),
               Decimal(addr[2] as nat), Decimal(addr[3] as nat)]);
  }

  /** `socket.inet_aton` on four-part decimal text; `None` where it would raise. */
  function Parse(text: string): (addr: Option<seq<byte>>)
    ensures addr.Some? ==> |addr.value| == 4
    ensures addr.Some? ==> |Split(text)| == 4
  {
    var fields := Split(text);
    if |fields| != 4 then None
    else
      match (ParseByte(fields[0]), ParseByte(fields[1]), ParseByte(fields[2]), ParseByte(fields[3]))
      case (Some(b0), Some(b1), Some(b2), Some(b3)) => Some([b0, b1, b2, b3])
      case _ => None
  }

  /** Reading back the text `inet_ntoa` prints gives the address again. */
  lemma ParseFormat(addr: seq<byte>)
    requires |addr| == 4
    ensures Parse(Format(addr)) == Some(addr)
  {
    FormatFields(addr);
    ParseDecimalByte(addr[0]);
    ParseDecimalByte(addr[1]);
    ParseDecimalByte(addr[2]);
    ParseDecimalByte(addr[3]);
    assert addr == [addr[0], addr[1], addr[2], addr[3]];
  }

  /** Distinct addresses never print as the same text. */
  lemma FormatInjective(a: seq<byte>, b: seq<byte>)
    requires |a| == 4 && |b| == 4
    requires Format(a) == Format(b)
    ensures a == b
  {
    ParseFormat(a);
    ParseFormat(b);
  }

  lemma JoinFour(d0: string, d1: string, d2: string, d3: string)
    ensures Join([d0, d1, d2, d3]) == d0 + "." + d1 + "." + d2 + "." + d3
  {
    var f := [d0, d1, d2, d3];
    assert Join([d3]) == d3;
    assert [d2, d3][1..] == [d3];
    assert Join([d2, d3]) == d2 + "." + d3;
    assert [d1, d2, d3][1..] == [d2, d3];
    assert Join([d1, d2, d3]) == d1 + "." + (d2 + "." + d3);
    assert f[1..] == [d1, d2, d3];
    assert Join(f) == d0 + "." + (d1 + "." + (d2 + "." + d3));
  }

  lemma FormatLoopback()
    ensures Format([127, 0, 0, 1]) == "127.0.0.1"
  {
    assert Decimal(127) == "127" by {
      assert Decimal(1) == "1";
      assert Decimal(12) == Decimal(1) + "2";
      assert Decimal(127) == Decimal(12) + "7";
    }
    assert Decimal(0) == "0" && Decimal(1) == "1";
    JoinFour("127", "0", "0", "1");
  }

  /** The all-zero address text, which the success reply uses as its bind address. */
  lemma ParseZeroAddress()
    ensures Parse("0.0.0.0") == Some([0, 0, 0, 0])
  {
    assert Decimal(0) == "0";
    JoinFour("0", "0", "0", "0");
    ParseFormat([0, 0, 0, 0]);
  }
}
