/**
 * Base64 as in GaLib/include/galib/encoding/base64.h: `base64encode` with
 * the alphabet of RFC 4648 section 4 and the padding of section 3.2, and
 * `base64decode`, which looks every input byte up in a 256-entry table `d`.
 *
 * Bytes are naturals below 256: the `unsigned char` data on the encoding
 * side, and the raw `char` buffer on the decoding side. The encoder's output
 * characters are their ASCII codes, so the two sides compose.
 */
module Base64 {
  import opened Maybe
  import opened Bits

  /** The table values besides the 64 digits. */
  const Whitespace: nat := 64
  const Equals: nat := 65
  const Invalid: nat := 66

  const PadByte: byte := '=' as int
  const Tab: byte := '\t' as int

  // ---------------------------------------------------------------------------
  // The alphabet and the decoding table
  // ---------------------------------------------------------------------------

  /**
   * `base64chars[v]`: the character of digit `v`, per Table 1 of RFC 4648
   * section 4 ('A'-'Z', 'a'-'z', '0'-'9', '+', '/').
   */
  function Letter(v: nat): (c: byte)
    requires v < 64
  {
    if v < 26 then 'A' as int + v
    else if v < 52 then 'a' as int + (v - 26)
    else if v < 62 then '0' as int + (v - 52)
    else if v == 62 then '+' as int
    else '/' as int
  }

  /**
   * The table `d` of `base64decode`, indexed by an unsigned byte: the digit
   * of an alphabet character, `Whitespace` for tab only, `Equals` for '=',
   * and `Invalid` for every other byte (space and newline included).
   */
  function Sextet(b: byte): (r: nat)
    ensures r <= Invalid
  {
    if 'A' as int <= b <= 'Z' as int then b - 'A' as int
    else if 'a' as int <= b <= 'z' as int then b - 'a' as int + 26
    else if '0' as int <= b <= '9' as int then b - '0' as int + 52
    else if b == '+' as int then 62
    else if b == '/' as int then 63
    else if b == Tab then Whitespace
    else if b == PadByte then Equals
    else Invalid
  }

  /** The table inverts the alphabet ... */
  lemma SextetOfLetter(v: nat)
    requires v < 64
    ensures Sextet(Letter(v)) == v
  {
  }

  /** ... and the alphabet inverts the table on the 64 digit characters. */
  lemma LetterOfSextet(b: byte)
    requires Sextet(b) < 64
    ensures Letter(Sextet(b)) == b
  {
  }

  // ---------------------------------------------------------------------------
  // Encoding
  // ---------------------------------------------------------------------------

  /** The 24-bit number of the group starting at `i`; missing bytes count as zero. */
  function GroupValue(data: seq<byte>, i: nat): (n: nat)
    requires i < |data|
    ensures n < 0x100_0000
  {
    data[i] as int * 0x1_0000
      + (if i + 1 < |data| then data[i + 1] as int * 0x100 else 0)
      + (if i + 2 < |data| then data[i + 2] as int else 0)
  }

  /** The `k`-th six-bit digit of a 24-bit number, most significant first. */
  function Digit(n: nat, k: nat): (d: nat)
    requires k < 4
    ensures d < 64
  {
    if k == 0 then n / 0x4_0000 % 64
    else if k == 1 then n / 0x1000 % 64
    else if k == 2 then n / 0x40 % 64
    else n % 64
  }

  /** The characters of the group starting at `i`: two, and one more per further byte present. */
  function GroupChars(data: seq<byte>, i: nat): seq<byte>
    requires i < |data|
  {
    var n := GroupValue(data, i);
    [Letter(Digit(n, 0)), Letter(Digit(n, 1))]
      + (if i + 1 < |data| then [Letter(Digit(n, 2))] else [])
      + (if i + 2 < |data| then [Letter(Digit(n, 3))] else [])
  }

  /** The characters of the groups starting at `i`, `i + 3`, ... */
  function CharsFrom(data: seq<byte>, i: nat): seq<byte>
    decreases |data| - i
  {
    if i >= |data| then [] else GroupChars(data, i) + CharsFrom(data, i + 3)
  }

  /** `(3 - len % 3) % 3` pad characters. */
  function Padding(len: nat): seq<byte>
  {
    if len % 3 == 0 then [] else seq(3 - len % 3, _ => PadByte)
  }

  /** The encoding of `data`, without the terminating NUL. */
  function Encode(data: seq<byte>): seq<byte>
  {
    CharsFrom(data, 0) + Padding(|data|)
  }

  lemma {:induction false} CharsFromLength(data: seq<byte>, i: nat)
    requires i <= |data|
    ensures |CharsFrom(data, i)| == (|data| - i) + (|data| - i + 2) / 3
    decreases |data| - i
  {
    if i < |data| {
      if i + 3 <= |data| {
        CharsFromLength(data, i + 3);
      }
    }
  }

  /** The encoding has `4 * ceil(n / 3)` characters, of which the last `(3 - n % 3) % 3` are '='. */
  lemma EncodeLength(data: seq<byte>)
    ensures |Encode(data)| == 4 * ((|data| + 2) / 3)
    ensures |Padding(|data|)| == (3 - |data| % 3) % 3
  {
    CharsFromLength(data, 0);
  }

  /**
   * One guarded write of `base64encode`: give up (answer 0) when
   * `resultIndex >= resultSize`, otherwise `result[resultIndex++] = c`.
   * `rest` is what is still to be written of `e`, which begins with `c`.
   */
  method Put(written: seq<byte>, c: byte, resultSize: nat, ghost rest: seq<byte>, ghost e: seq<byte>)
    returns (ok: bool, w: seq<byte>, ghost rest': seq<byte>)
    requires written + rest == e && |written| <= resultSize && rest != [] && rest[0] == c
    ensures ok <==> |written| < resultSize
    ensures ok ==> w == written + [c] && rest' == rest[1..] && w + rest' == e && |w| <= resultSize
    ensures !ok ==> w == written && resultSize < |e| && w == e[..resultSize]
  {
    if |written| >= resultSize {
      return false, written, rest;
    }
    assert written + [c] + rest[1..] == written + rest;
    return true, written + [c], rest[1..];
  }

  /**
   * `base64encode(data, dataLength, result, resultSize)`; `written` is what
   * it stores in `result[0..]`. A buffer that cannot hold the encoding and
   * its terminating NUL gets a prefix of the encoding and the answer 0;
   * otherwise the answer is the encoding's length and the NUL follows it.
   * Nothing is ever written at or beyond `resultSize`.
   */
  method EncodeInto(data: seq<byte>, resultSize: nat) returns (ret: nat, written: seq<byte>)
    ensures |written| <= resultSize
    ensures resultSize <= |Encode(data)| ==> ret == 0 && written == Encode(data)[..resultSize]
    ensures resultSize > |Encode(data)| ==> ret == |Encode(data)| && written == Encode(data) + [0]
  {
    ghost var e := Encode(data);
    ghost var rest := e;
    written := [];
    var ok: bool;
    var i: nat := 0;
    while i < |data|
      invariant |written| <= resultSize
      invariant written + rest == e
      invariant rest == CharsFrom(data, i) + Padding(|data|)
      decreases |data| - i
    {
      var n: nat := data[i] as int * 0x1_0000;
      if i + 1 < |data| {
        n := n + data[i + 1] as int * 0x100;
      }
      if i + 2 < |data| {
        n := n + data[i + 2] as int;
      }
      ghost var tail := CharsFrom(data, i + 3) + Padding(|data|);
      GroupSplit(data, i);
      Assoc(GroupChars(data, i), CharsFrom(data, i + 3), Padding(|data|));
      ok, written, rest := PutGroup(data, i, n, resultSize, written, rest, e, tail);
      if !ok {
        return 0, written;
      }
      assert rest == tail;
      i := i + 3;
    }
    assert rest == Padding(|data|);
    var padCount := |data| % 3;
    if padCount > 0 {
      while padCount < 3
        invariant padCount <= 3 && |written| <= resultSize
        invariant written + rest == e
        invariant rest == seq(3 - padCount, _ => PadByte)
        decreases 3 - padCount
      {
        ok, written, rest := Put(written, PadByte, resultSize, rest, e);
        if !ok {
          return 0, written;
        }
        padCount := padCount + 1;
      }
    }
    assert written == e;
    if |written| >= resultSize {
      return 0, written;
    }
    ret := |written|;
    written := written + [0];
  }

  /** The guarded writes of the two to four characters of the group starting at `i`. */
  method PutGroup(data: seq<byte>, i: nat, n: nat, resultSize: nat, written: seq<byte>,
                  ghost rest: seq<byte>, ghost e: seq<byte>, ghost tail: seq<byte>)
    returns (ok: bool, w: seq<byte>, ghost rest': seq<byte>)
    requires i < |data| && n == GroupValue(data, i)
    requires written + rest == e && |written| <= resultSize && rest == GroupChars(data, i) + tail
    ensures ok ==> rest' == tail && w + rest' == e && |w| <= resultSize
    ensures !ok ==> resultSize < |e| && w == e[..resultSize]
  {
    var n0, n1, n2, n3 := n / 0x4_0000 % 64, n / 0x1000 % 64, n / 0x40 % 64, n % 64;
    ghost var extra, last := GroupExtra(data, i), GroupLast(data, i);
    GroupSplit(data, i);
    Regroup(Letter(n0), Letter(n1), extra, tail);
    w, rest' := written, rest;
    ok, w, rest' := Put(w, Letter(n0), resultSize, rest', e);
    if !ok {
      return;
    }
    ok, w, rest' := Put(w, Letter(n1), resultSize, rest', e);
    if !ok {
      return;
    }
    if i + 1 < |data| {
      Regroup1(Letter(n2), last, tail);
      ok, w, rest' := Put(w, Letter(n2), resultSize, rest', e);
      if !ok {
        return;
      }
    }
    if i + 2 < |data| {
      ok, w, rest' := Put(w, Letter(n3), resultSize, rest', e);
    }
  }

  /** The characters of a group after its first two. */
  function GroupExtra(data: seq<byte>, i: nat): seq<byte>
    requires i < |data|
  {
    (if i + 1 < |data| then [Letter(Digit(GroupValue(data, i), 2))] else []) + GroupLast(data, i)
  }

  /** The fourth character of a group, when it has three bytes. */
  function GroupLast(data: seq<byte>, i: nat): seq<byte>
    requires i < |data|
  {
    if i + 2 < |data| then [Letter(Digit(GroupValue(data, i), 3))] else []
  }

  lemma Regroup(x: byte, y: byte, extra: seq<byte>, tail: seq<byte>)
    ensures [x, y] + extra + tail == [x] + ([y] + (extra + tail))
    ensures ([x] + ([y] + (extra + tail)))[1..] == [y] + (extra + tail)
    ensures ([y] + (extra + tail))[1..] == extra + tail
  {
    assert [x, y] == [x] + [y];
  }

  lemma Assoc(a: seq<byte>, b: seq<byte>, c: seq<byte>)
    ensures (a + b) + c == a + (b + c)
  {
  }

  lemma Regroup1(x: byte, last: seq<byte>, tail: seq<byte>)
    ensures ([x] + last) + tail == [x] + (last + tail)
    ensures ([x] + (last + tail))[1..] == last + tail
  {
  }

  lemma GroupSplit(data: seq<byte>, i: nat)
    requires i < |data|
    ensures var n := GroupValue(data, i);
      GroupChars(data, i) == [Letter(Digit(n, 0)), Letter(Digit(n, 1))] + GroupExtra(data, i)
    ensures i + 1 < |data| ==> GroupExtra(data, i) == [Letter(Digit(GroupValue(data, i), 2))] + GroupLast(data, i)
    ensures i + 1 >= |data| ==> GroupExtra(data, i) == [] && GroupLast(data, i) == []
    ensures i + 2 < |data| ==> GroupLast(data, i) == [Letter(Digit(GroupValue(data, i), 3))]
    ensures CharsFrom(data, i) == GroupChars(data, i) + CharsFrom(data, i + 3)
  {
  }

  // ---------------------------------------------------------------------------
  // Decoding
  // ---------------------------------------------------------------------------

  /** How the scan of `base64decode`'s input loop ends. */
  datatype Scan =
    | Ended(buf: nat, out: seq<byte>)  // input exhausted, or stopped at '='; `buf` holds leftover digits
    | Failed(out: seq<byte>)           // an invalid byte, or three more bytes would pass `*inOutLen`
    | OutOfTable                       // the table was read outside its bounds

  /** What `base64decode` returns, what it leaves in `*inOutLen`, and what it wrote to `out`. */
  datatype Decoded = Decoded(ret: nat, inOutLen: nat, written: seq<byte>)

  /** A call's behaviour: defined with a value, or undefined. */
  datatype Behaviour<T> = Defined(value: T) | Undefined

  /**
   * `d[*in]`. With a signed `char`, bytes from 0x80 up become negative
   * indices, which read outside `d`; indexed by the unsigned byte, every
   * byte has an entry.
   */
  function Lookup(b: byte, signedChar: bool): Option<nat>
  {
    if signedChar && b >= 0x80 then None else Some(Sextet(b))
  }

  /**
   * The input loop of `base64decode` from `input[i]`: tab is skipped, an
   * invalid byte fails, the first '=' ends the scan; a digit is shifted into
   * `buf` (`buf << 6 | c`, with a marker bit above the digits), and when the
   * marker reaches bit 24 the three bytes below it are written, unless that
   * would pass `cap` (`*inOutLen`).
   */
  function DecodeFrom(input: seq<byte>, i: nat, buf: nat, out: seq<byte>, cap: nat, signedChar: bool): (r: Scan)
    requires i <= |input|
    ensures !signedChar ==> !r.OutOfTable?
    ensures |out| <= cap && !r.OutOfTable? ==> |r.out| <= cap
    decreases |input| - i
  {
    if i == |input| then Ended(buf, out)
    else
      match Lookup(input[i], signedChar)
      case None => OutOfTable
      case Some(c) =>
        if c == Whitespace then DecodeFrom(input, i + 1, buf, out, cap, signedChar)
        else if c == Invalid then Failed(out)
        else if c == Equals then Ended(buf, out)
        else
          var b := buf * 64 + c;
          if b / 0x100_0000 % 2 == 1 then
            if |out| + 3 > cap then Failed(out)
            else DecodeFrom(input, i + 1, 1, out + [b / 0x1_0000 % 256, b / 0x100 % 256, b % 256], cap, signedChar)
          else DecodeFrom(input, i + 1, b, out, cap, signedChar)
  }

  /**
   * After the loop: three leftover digits (marker at bit 18) give two bytes,
   * two digits (marker at bit 12) give one, a single digit gives nothing.
   * On success `*inOutLen` and the answer are the number of bytes produced.
   */
  function Finish(buf: nat, out: seq<byte>, cap: nat): Decoded
  {
    if buf / 0x4_0000 % 2 == 1 then
      if |out| + 2 > cap then Decoded(0, cap, out)
      else var o := out + [buf / 0x400 % 256, buf / 4 % 256]; Decoded(|o|, |o|, o)
    else if buf / 0x1000 % 2 == 1 then
      if |out| + 1 > cap then Decoded(0, cap, out)
      else var o := out + [buf / 16 % 256]; Decoded(|o|, |o|, o)
    else Decoded(|out|, |out|, out)
  }

  /** The outcome of a scan that did not read outside the table. */
  function Complete(s: Scan, cap: nat): Decoded
    requires !s.OutOfTable?
  {
    match s
    case Failed(out) => Decoded(0, cap, out)
    case Ended(buf, out) => Finish(buf, out, cap)
  }

  /**
   * `base64decode(in, inLen, out, inOutLen)` with the table indexed by the
   * unsigned byte. It never writes more than `cap` bytes; it answers either
   * the number of bytes written, also stored in `*inOutLen`, or 0 with
   * `*inOutLen` untouched.
   */
  function Decode(input: seq<byte>, cap: nat): (r: Decoded)
    ensures |r.written| <= cap
    ensures (r.ret == |r.written| && r.inOutLen == r.ret) || (r.ret == 0 && r.inOutLen == cap)
  {
    Complete(DecodeFrom(input, 0, 1, [], cap, false), cap)
  }

  /** `base64decode` as written, where `char` is signed. */
  function DecodeAsWritten(input: seq<byte>, cap: nat): Behaviour<Decoded>
  {
    var s := DecodeFrom(input, 0, 1, [], cap, true);
    if s.OutOfTable? then Undefined else Defined(Complete(s, cap))
  }

  /** The scan depends only on the input still to be read. */
  lemma {:induction false} DecodeShift(s: seq<byte>, i: nat, t: seq<byte>, j: nat, buf: nat, out: seq<byte>, cap: nat, signedChar: bool)
    requires i <= |s| && j <= |t| && s[i..] == t[j..]
    ensures DecodeFrom(s, i, buf, out, cap, signedChar) == DecodeFrom(t, j, buf, out, cap, signedChar)
    decreases |s| - i
  {
    if i < |s| {
      assert s[i] == s[i..][0] == t[j];
      assert s[i + 1..] == s[i..][1..] == t[j..][1..] == t[j + 1..];
      var c := Lookup(s[i], signedChar);
      if c.Some? && c.value != Invalid && c.value != Equals {
        var b := buf * 64 + c.value;
        if c.value == Whitespace {
          DecodeShift(s, i + 1, t, j + 1, buf, out, cap, signedChar);
        } else if b / 0x100_0000 % 2 == 1 {
          DecodeShift(s, i + 1, t, j + 1, 1, out + [b / 0x1_0000 % 256, b / 0x100 % 256, b % 256], cap, signedChar);
        } else {
          DecodeShift(s, i + 1, t, j + 1, b, out, cap, signedChar);
        }
      }
    }
  }

  /** Everything after the first '=' is ignored. */
  lemma StopsAtEquals(a: seq<byte>, rest: seq<byte>, cap: nat)
    ensures Decode(a + [PadByte] + rest, cap) == Decode(a + [PadByte], cap)
  {
    StopsAtEqualsFrom(a, rest, 0, 1, [], cap);
  }

  lemma {:induction false} StopsAtEqualsFrom(a: seq<byte>, rest: seq<byte>, i: nat, buf: nat, out: seq<byte>, cap: nat)
    requires i <= |a|
    ensures DecodeFrom(a + [PadByte] + rest, i, buf, out, cap, false) == DecodeFrom(a + [PadByte], i, buf, out, cap, false)
    decreases |a| - i
  {
    var s, t := a + [PadByte] + rest, a + [PadByte];
    assert s[i] == t[i];
    if i < |a| {
      var c := Sextet(a[i]);
      var b := buf * 64 + c;
      if c == Whitespace {
        StopsAtEqualsFrom(a, rest, i + 1, buf, out, cap);
      } else if c < 64 && b / 0x100_0000 % 2 == 1 {
        StopsAtEqualsFrom(a, rest, i + 1, 1, out + [b / 0x1_0000 % 256, b / 0x100 % 256, b % 256], cap);
      } else if c < 64 {
        StopsAtEqualsFrom(a, rest, i + 1, b, out, cap);
      }
    }
  }

  /** A tab anywhere is skipped. */
  lemma SkipsTab(a: seq<byte>, rest: seq<byte>, cap: nat)
    ensures Decode(a + [Tab] + rest, cap) == Decode(a + rest, cap)
  {
    SkipsTabFrom(a, rest, 0, 1, [], cap);
  }

  lemma {:induction false} SkipsTabFrom(a: seq<byte>, rest: seq<byte>, i: nat, buf: nat, out: seq<byte>, cap: nat)
    requires i <= |a|
    ensures DecodeFrom(a + [Tab] + rest, i, buf, out, cap, false) == DecodeFrom(a + rest, i, buf, out, cap, false)
    decreases |a| - i
  {
    var s, t := a + [Tab] + rest, a + rest;
    if i < |a| {
      assert s[i] == t[i];
      var c := Sextet(a[i]);
      var b := buf * 64 + c;
      if c == Whitespace {
        SkipsTabFrom(a, rest, i + 1, buf, out, cap);
      } else if c < 64 && b / 0x100_0000 % 2 == 1 {
        SkipsTabFrom(a, rest, i + 1, 1, out + [b / 0x1_0000 % 256, b / 0x100 % 256, b % 256], cap);
      } else if c < 64 {
        SkipsTabFrom(a, rest, i + 1, b, out, cap);
      }
    } else {
      assert s[i] == Tab;
      DecodeShift(s, i + 1, t, i, buf, out, cap, false);
    }
  }

  /**
   * A byte the table marks invalid (anything outside the alphabet but tab
   * and '=': space, newline, ...) makes the call answer 0 with `*inOutLen`
   * untouched, unless a '=' before it has already ended the scan.
   */
  lemma FailsOnInvalid(a: seq<byte>, x: byte, rest: seq<byte>, cap: nat)
    requires PadByte !in a && Sextet(x) == Invalid
    ensures Decode(a + [x] + rest, cap).ret == 0 && Decode(a + [x] + rest, cap).inOutLen == cap
  {
    FailsOnInvalidFrom(a, x, rest, 0, 1, [], cap);
  }

  lemma {:induction false} FailsOnInvalidFrom(a: seq<byte>, x: byte, rest: seq<byte>, i: nat, buf: nat, out: seq<byte>, cap: nat)
    requires i <= |a| && PadByte !in a && Sextet(x) == Invalid
    ensures DecodeFrom(a + [x] + rest, i, buf, out, cap, false).Failed?
    decreases |a| - i
  {
    var s := a + [x] + rest;
    assert s[i] == if i < |a| then a[i] else x;
    if i < |a| {
      assert a[i] in a;
      var c := Sextet(a[i]);
      var b := buf * 64 + c;
      if c == Whitespace {
        FailsOnInvalidFrom(a, x, rest, i + 1, buf, out, cap);
      } else if c < 64 && b / 0x100_0000 % 2 == 1 && |out| + 3 <= cap {
        FailsOnInvalidFrom(a, x, rest, i + 1, 1, out + [b / 0x1_0000 % 256, b / 0x100 % 256, b % 256], cap);
      } else if c < 64 && b / 0x100_0000 % 2 != 1 {
        FailsOnInvalidFrom(a, x, rest, i + 1, b, out, cap);
      }
    }
  }

  // ---------------------------------------------------------------------------
  // The signed `char` index
  // ---------------------------------------------------------------------------

  /** On bytes below 0x80 the written code behaves as with an unsigned index. */
  lemma AsWrittenAgreesBelow0x80(input: seq<byte>, cap: nat)
    requires forall k :: 0 <= k < |input| ==> input[k] < 0x80
    ensures DecodeAsWritten(input, cap) == Defined(Decode(input, cap))
  {
    AgreesFrom(input, 0, 1, [], cap);
  }

  lemma {:induction false} AgreesFrom(input: seq<byte>, i: nat, buf: nat, out: seq<byte>, cap: nat)
    requires i <= |input|
    requires forall k :: 0 <= k < |input| ==> input[k] < 0x80
    ensures DecodeFrom(input, i, buf, out, cap, true) == DecodeFrom(input, i, buf, out, cap, false)
    decreases |input| - i
  {
    if i < |input| {
      var c := Sextet(input[i]);
      var b := buf * 64 + c;
      if c == Whitespace {
        AgreesFrom(input, i + 1, buf, out, cap);
      } else if c < 64 && b / 0x100_0000 % 2 == 1 {
        AgreesFrom(input, i + 1, 1, out + [b / 0x1_0000 % 256, b / 0x100 % 256, b % 256], cap);
      } else if c < 64 {
        AgreesFrom(input, i + 1, b, out, cap);
      }
    }
  }

  /**
   * The byte 0xFF, read through a signed `char`, indexes `d[-1]`: the
   * written code reads outside the table, where the unsigned index finds
   * `Invalid` and the call answers 0.
   */
  lemma SignedCharReadsOutsideTable(cap: nat)
    ensures DecodeAsWritten([0xFF], cap) == Undefined
    ensures Decode([0xFF], cap) == Decoded(0, cap, [])
  {
  }

  // ---------------------------------------------------------------------------
  // Round trip
  // ---------------------------------------------------------------------------

  /** A 24-bit number is the sum of its four digits, each in place. */
  lemma DigitsCompose(n: nat)
    requires n < 0x100_0000
    ensures n == Digit(n, 0) * 0x4_0000 + Digit(n, 1) * 0x1000 + Digit(n, 2) * 0x40 + Digit(n, 3)
  {
    var q1, q2, q3 := n / 0x40, n / 0x1000, n / 0x4_0000;
    assert n == q1 * 0x40 + n % 0x40;
    assert q1 == q2 * 0x40 + q1 % 0x40 by {
      assert n == (q2 * 0x40 + q1 % 0x40) * 0x40 + n % 0x40;
    }
    assert q2 == q3 * 0x40 + q2 % 0x40 by {
      assert n == (q3 * 0x40 + q2 % 0x40) * 0x1000 + n % 0x1000;
    }
    assert q3 < 64;
  }

  /** The three bytes of a 24-bit group value. */
  lemma GroupBytes(g0: byte, g1: byte, g2: byte)
    ensures var n := g0 * 0x1_0000 + g1 * 0x100 + g2;
      n / 0x1_0000 == g0 && n / 0x100 % 256 == g1 && n % 256 == g2
  {
  }

  /** Reading the digit character `Letter(d)` shifts `d` into `buf`. */
  lemma DecodeDigit(s: seq<byte>, p: nat, d: nat, buf: nat, out: seq<byte>, cap: nat)
    requires p < |s| && d < 64 && s[p] == Letter(d) && buf * 64 + d < 0x100_0000
    ensures DecodeFrom(s, p, buf, out, cap, false) == DecodeFrom(s, p + 1, buf * 64 + d, out, cap, false)
  {
    SextetOfLetter(d);
  }

  /** Four digit characters of a 24-bit number give its three bytes. */
  lemma DecodeFour(s: seq<byte>, p: nat, n: nat, out: seq<byte>, cap: nat)
    requires p + 4 <= |s| && n < 0x100_0000 && |out| + 3 <= cap
    requires forall k :: 0 <= k < 4 ==> s[p + k] == Letter(Digit(n, k))
    ensures DecodeFrom(s, p, 1, out, cap, false)
         == DecodeFrom(s, p + 4, 1, out + [n / 0x1_0000, n / 0x100 % 256, n % 256], cap, false)
  {
    var d0, d1, d2, d3 := Digit(n, 0), Digit(n, 1), Digit(n, 2), Digit(n, 3);
    DigitsCompose(n);
    assert s[p + 0] == Letter(d0) && s[p + 1] == Letter(d1) && s[p + 2] == Letter(d2) && s[p + 3] == Letter(d3);
    var b1 := 64 + d0;
    var b2 := b1 * 64 + d1;
    var b3 := b2 * 64 + d2;
    var b4 := b3 * 64 + d3;
    assert b4 == 0x100_0000 + n;
    DecodeDigit(s, p, d0, 1, out, cap);
    DecodeDigit(s, p + 1, d1, b1, out, cap);
    DecodeDigit(s, p + 2, d2, b2, out, cap);
    DecodeFullDigit(s, p + 3, d3, b3, out, cap);
    MarkedBytes(n);
  }

  /** The digit that brings the marker to bit 24 writes the three bytes below it. */
  lemma DecodeFullDigit(s: seq<byte>, p: nat, d: nat, buf: nat, out: seq<byte>, cap: nat)
    requires p < |s| && d < 64 && s[p] == Letter(d) && |out| + 3 <= cap
    requires 0x100_0000 <= buf * 64 + d < 0x200_0000
    ensures var b := buf * 64 + d;
      DecodeFrom(s, p, buf, out, cap, false)
        == DecodeFrom(s, p + 1, 1, out + [b / 0x1_0000 % 256, b / 0x100 % 256, b % 256], cap, false)
  {
    SextetOfLetter(d);
  }

  /** The bytes below the marker bit are those of the number. */
  lemma MarkedBytes(n: nat)
    requires n < 0x100_0000
    ensures var b := 0x100_0000 + n;
      [b / 0x1_0000 % 256, b / 0x100 % 256, b % 256] == [n / 0x1_0000, n / 0x100 % 256, n % 256]
  {
    var b := 0x100_0000 + n;
    var q, r := n / 0x1_0000, n % 0x1_0000;
    assert b == (0x100 + q) * 0x1_0000 + r;
    assert b / 0x1_0000 == 0x100 + q;
    var q', r' := n / 0x100, n % 0x100;
    assert b == (0x1_0000 + q') * 0x100 + r';
    assert b / 0x100 == 0x1_0000 + q';
    assert (0x1_0000 + q') % 256 == q' % 256;
  }

  /** Three digit characters and a '=' leave three digits of `n >> 6` in `buf`. */
  lemma DecodeThree(s: seq<byte>, p: nat, n: nat, out: seq<byte>, cap: nat)
    requires p + 4 <= |s| && n < 0x100_0000 && n % 0x100 == 0
    requires forall k :: 0 <= k < 3 ==> s[p + k] == Letter(Digit(n, k))
    requires s[p + 3] == PadByte
    ensures DecodeFrom(s, p, 1, out, cap, false) == Ended(0x4_0000 + n / 0x40, out)
  {
    var d0, d1, d2 := Digit(n, 0), Digit(n, 1), Digit(n, 2);
    DigitsCompose(n);
    assert s[p + 0] == Letter(d0) && s[p + 1] == Letter(d1) && s[p + 2] == Letter(d2);
    var b1 := 64 + d0;
    var b2 := b1 * 64 + d1;
    var b3 := b2 * 64 + d2;
    assert b3 == 0x4_0000 + n / 0x40;
    DecodeDigit(s, p, d0, 1, out, cap);
    DecodeDigit(s, p + 1, d1, b1, out, cap);
    DecodeDigit(s, p + 2, d2, b2, out, cap);
  }

  /** Two digit characters and a '=' leave two digits of `n >> 12` in `buf`. */
  lemma DecodeTwo(s: seq<byte>, p: nat, n: nat, out: seq<byte>, cap: nat)
    requires p + 3 <= |s| && n < 0x100_0000 && n % 0x1_0000 == 0
    requires forall k :: 0 <= k < 2 ==> s[p + k] == Letter(Digit(n, k))
    requires s[p + 2] == PadByte
    ensures DecodeFrom(s, p, 1, out, cap, false) == Ended(0x1000 + n / 0x1000, out)
  {
    var d0, d1 := Digit(n, 0), Digit(n, 1);
    DigitsCompose(n);
    assert s[p + 0] == Letter(d0) && s[p + 1] == Letter(d1);
    var b1 := 64 + d0;
    var b2 := b1 * 64 + d1;
    assert b2 == 0x1000 + n / 0x1000;
    DecodeDigit(s, p, d0, 1, out, cap);
    DecodeDigit(s, p + 1, d1, b1, out, cap);
  }

  /** The leftover of two bytes has its marker at bit 18 and gives them back. */
  lemma TailOfTwo(g0: byte, g1: byte)
    ensures var buf := 0x4_0000 + (g0 * 0x1_0000 + g1 * 0x100) / 0x40;
      buf / 0x4_0000 % 2 == 1 && buf / 0x400 % 256 == g0 && buf / 4 % 256 == g1
  {
    var m := g0 * 0x400 + g1 * 4;
    assert g0 * 0x1_0000 + g1 * 0x100 == m * 0x40;
    assert (m * 0x40) / 0x40 == m;
    var buf := 0x4_0000 + m;
    assert buf == (0x100 + g0) * 0x400 + g1 * 4;
    assert buf / 0x400 == 0x100 + g0;
    assert buf == (0x1_0000 + g0 * 0x100 + g1) * 4;
    assert buf / 4 == 0x1_0000 + g0 * 0x100 + g1;
  }

  /** The leftover of one byte has its marker at bit 12 and gives it back. */
  lemma TailOfOne(g0: byte)
    ensures var buf := 0x1000 + g0 * 0x1_0000 / 0x1000;
      buf / 0x4_0000 % 2 == 0 && buf / 0x1000 % 2 == 1 && buf / 16 % 256 == g0
  {
  }

  /** The encoding from the group at `i` on starts at character `i + i / 3`. */
  lemma {:induction false} EncodedSuffix(data: seq<byte>, i: nat)
    requires i % 3 == 0 && i <= |data|
    ensures i + i / 3 <= |CharsFrom(data, 0)|
    ensures CharsFrom(data, 0)[i + i / 3..] == CharsFrom(data, i)
    decreases i
  {
    if i > 0 {
      EncodedSuffix(data, i - 3);
      var q := i - 3 + (i - 3) / 3;
      assert CharsFrom(data, i - 3) == GroupChars(data, i - 3) + CharsFrom(data, i);
      assert CharsFrom(data, 0)[q..][4..] == CharsFrom(data, 0)[q + 4..];
    }
  }

  /** The characters of the group at `i` sit at `i + i / 3` in the encoding. */
  lemma GroupInEncoding(data: seq<byte>, i: nat)
    requires i % 3 == 0 && i < |data|
    ensures var e, p, n := Encode(data), i + i / 3, GroupValue(data, i);
      && p + |GroupChars(data, i)| <= |e|
      && forall k :: 0 <= k < |GroupChars(data, i)| ==> e[p + k] == Letter(Digit(n, k))
  {
    var e, p := Encode(data), i + i / 3;
    EncodedSuffix(data, i);
    assert e[p..] == CharsFrom(data, i) + Padding(|data|);
    GroupSplit(data, i);
    Assoc(GroupChars(data, i), CharsFrom(data, i + 3), Padding(|data|));
    SuffixAt(e, p, GroupChars(data, i), CharsFrom(data, i + 3) + Padding(|data|));
    GroupCharsAt(data, i);
  }

  /** A final short group is followed by its first '='. */
  lemma PadInEncoding(data: seq<byte>, i: nat)
    requires i % 3 == 0 && i < |data| <= i + 2
    ensures var e, p := Encode(data), i + i / 3;
      && p + |data| - i + 2 <= |e|
      && e[p + |data| - i + 1] == PadByte
  {
    var e, p := Encode(data), i + i / 3;
    EncodedSuffix(data, i);
    assert e[p..] == CharsFrom(data, i) + Padding(|data|);
    assert CharsFrom(data, i) == GroupChars(data, i);
    GroupCharsAt(data, i);
    var j := |data| - i + 1;
    assert e[p + j] == e[p..][j] == Padding(|data|)[0];
  }

  /** `e[p..] == g + rest` puts `g` at `p`. */
  lemma SuffixAt(e: seq<byte>, p: nat, g: seq<byte>, rest: seq<byte>)
    requires p <= |e| && e[p..] == g + rest
    ensures p + |g| <= |e| && forall k :: 0 <= k < |g| ==> e[p + k] == g[k]
  {
    forall k | 0 <= k < |g|
      ensures e[p + k] == g[k]
    {
      assert e[p + k] == e[p..][k];
    }
  }

  /** The `k`-th character of a group is the letter of the `k`-th digit of its value. */
  lemma GroupCharsAt(data: seq<byte>, i: nat)
    requires i < |data|
    ensures |GroupChars(data, i)| == if i + 2 < |data| then 4 else |data| - i + 1
    ensures forall k :: 0 <= k < |GroupChars(data, i)| ==> GroupChars(data, i)[k] == Letter(Digit(GroupValue(data, i), k))
  {
  }

  /** A full group decodes to its three bytes, and the scan goes on at the next group. */
  lemma RoundTripGroup(data: seq<byte>, i: nat, cap: nat)
    requires i % 3 == 0 && i + 3 <= |data| <= cap
    ensures i + i / 3 + 4 <= |Encode(data)|
    ensures DecodeFrom(Encode(data), i + i / 3, 1, data[..i], cap, false)
         == DecodeFrom(Encode(data), i + i / 3 + 4, 1, data[..i + 3], cap, false)
  {
    var e, p, n := Encode(data), i + i / 3, GroupValue(data, i);
    GroupInEncoding(data, i);
    assert forall k :: 0 <= k < 4 ==> e[p + k] == Letter(Digit(n, k));
    DecodeFour(e, p, n, data[..i], cap);
    AppendGroup(data, i);
  }

  lemma AppendGroup(data: seq<byte>, i: nat)
    requires i + 3 <= |data|
    ensures var n := GroupValue(data, i);
      data[..i] + [n / 0x1_0000, n / 0x100 % 256, n % 256] == data[..i + 3]
  {
    GroupBytes(data[i], data[i + 1], data[i + 2]);
  }

  /** With every group decoded, nothing is left over. */
  lemma RoundTripEnd(data: seq<byte>, cap: nat)
    requires |data| % 3 == 0 && |data| <= cap
    ensures |data| + |data| / 3 == |Encode(data)|
    ensures Complete(DecodeFrom(Encode(data), |data| + |data| / 3, 1, data[..|data|], cap, false), cap) == Decoded(|data|, |data|, data)
  {
    EncodeLength(data);
    assert data[..|data|] == data;
  }

  /** A final group of two bytes: three characters and one '='. */
  lemma RoundTripTwo(data: seq<byte>, i: nat, cap: nat)
    requires i % 3 == 0 && i + 2 == |data| <= cap
    ensures i + i / 3 <= |Encode(data)|
    ensures Complete(DecodeFrom(Encode(data), i + i / 3, 1, data[..i], cap, false), cap) == Decoded(|data|, |data|, data)
  {
    var e, p, n := Encode(data), i + i / 3, GroupValue(data, i);
    GroupInEncoding(data, i);
    assert forall k :: 0 <= k < 3 ==> e[p + k] == Letter(Digit(n, k));
    PadInEncoding(data, i);
    TailValues(data, i);
    DecodeThree(e, p, n, data[..i], cap);
    TailOfTwo(data[i], data[i + 1]);
  }

  /** A final group of one byte: two characters and two '='. */
  lemma RoundTripOne(data: seq<byte>, i: nat, cap: nat)
    requires i % 3 == 0 && i + 1 == |data| <= cap
    ensures i + i / 3 <= |Encode(data)|
    ensures Complete(DecodeFrom(Encode(data), i + i / 3, 1, data[..i], cap, false), cap) == Decoded(|data|, |data|, data)
  {
    var e, p, n := Encode(data), i + i / 3, GroupValue(data, i);
    GroupInEncoding(data, i);
    assert forall k :: 0 <= k < 2 ==> e[p + k] == Letter(Digit(n, k));
    PadInEncoding(data, i);
    TailValues(data, i);
    DecodeTwo(e, p, n, data[..i], cap);
    TailOfOne(data[i]);
  }

  /** The value of a final short group, and the data rebuilt from it. */
  lemma TailValues(data: seq<byte>, i: nat)
    requires i < |data| <= i + 2
    ensures i + 2 == |data| ==> GroupValue(data, i) == data[i] as int * 0x1_0000 + data[i + 1] as int * 0x100
    ensures i + 2 == |data| ==> GroupValue(data, i) % 0x100 == 0 && data[..i] + [data[i], data[i + 1]] == data
    ensures i + 1 == |data| ==> GroupValue(data, i) == data[i] as int * 0x1_0000
    ensures i + 1 == |data| ==> GroupValue(data, i) % 0x1_0000 == 0 && data[..i] + [data[i]] == data
  {
  }

  /** Decoding the encoding from the group at `i` on, with the bytes before it already out. */
  lemma {:induction false} RoundTripFrom(data: seq<byte>, i: nat, cap: nat)
    requires i % 3 == 0 && i <= |data| <= cap
    ensures i + i / 3 <= |Encode(data)|
    ensures Complete(DecodeFrom(Encode(data), i + i / 3, 1, data[..i], cap, false), cap) == Decoded(|data|, |data|, data)
    decreases |data| - i
  {
    if i == |data| {
      RoundTripEnd(data, cap);
    } else if i + 3 <= |data| {
      RoundTripGroup(data, i, cap);
      RoundTripFrom(data, i + 3, cap);
    } else if i + 2 == |data| {
      RoundTripTwo(data, i, cap);
    } else {
      RoundTripOne(data, i, cap);
    }
  }

  /**
   * Decoding the output of `base64encode` into a buffer of at least the
   * original length gives back the original bytes and length.
   */
  lemma RoundTrip(data: seq<byte>, cap: nat)
    requires |data| <= cap
    ensures Decode(Encode(data), cap) == Decoded(|data|, |data|, data)
  {
    RoundTripFrom(data, 0, cap);
    assert data[..0] == [];
  }

  // ---------------------------------------------------------------------------
  // Examples
  // ---------------------------------------------------------------------------

  /** The test vectors of RFC 4648 section 10 (bytes written as their ASCII characters). */
  lemma EncodesToF()
    ensures Encode(['f' as int]) == ['Z' as int, 'g' as int, '=' as int, '=' as int]
  {
    var d: seq<byte> := ['f' as int];
    assert GroupValue(d, 0) == 0x660000;
    assert Digit(0x660000, 0) == 25 && Digit(0x660000, 1) == 32;
    assert CharsFrom(d, 0) == GroupChars(d, 0);
  }

  lemma EncodesToFo()
    ensures Encode(['f' as int, 'o' as int]) == ['Z' as int, 'm' as int, '8' as int, '=' as int]
  {
    var d: seq<byte> := ['f' as int, 'o' as int];
    assert GroupValue(d, 0) == 0x666f00;
    assert Digit(0x666f00, 0) == 25 && Digit(0x666f00, 1) == 38 && Digit(0x666f00, 2) == 60;
    assert CharsFrom(d, 0) == GroupChars(d, 0);
  }

  lemma EncodesToFoo()
    ensures Encode(['f' as int, 'o' as int, 'o' as int]) == ['Z' as int, 'm' as int, '9' as int, 'v' as int]
  {
    var d: seq<byte> := ['f' as int, 'o' as int, 'o' as int];
    assert GroupValue(d, 0) == 0x666f6f;
    assert Digit(0x666f6f, 0) == 25 && Digit(0x666f6f, 1) == 38 && Digit(0x666f6f, 2) == 61 && Digit(0x666f6f, 3) == 47;
    assert CharsFrom(d, 0) == GroupChars(d, 0);
  }

  lemma EncodesToFoobar()
    ensures Encode(['f' as int, 'o' as int, 'o' as int, 'b' as int, 'a' as int, 'r' as int]) == ['Z' as int, 'm' as int, '9' as int, 'v' as int, 'Y' as int, 'm' as int, 'F' as int, 'y' as int]
  {
    var d: seq<byte> := ['f' as int, 'o' as int, 'o' as int, 'b' as int, 'a' as int, 'r' as int];
    assert GroupValue(d, 0) == 0x666f6f;
    assert Digit(0x666f6f, 0) == 25 && Digit(0x666f6f, 1) == 38 && Digit(0x666f6f, 2) == 61 && Digit(0x666f6f, 3) == 47;
    assert GroupValue(d, 3) == 0x626172;
    assert Digit(0x626172, 0) == 24 && Digit(0x626172, 1) == 38 && Digit(0x626172, 2) == 5 && Digit(0x626172, 3) == 50;
    assert CharsFrom(d, 0) == GroupChars(d, 0) + CharsFrom(d, 3);
    assert CharsFrom(d, 3) == GroupChars(d, 3) + CharsFrom(d, 6);
    assert CharsFrom(d, 6) == [];
  }

  /**
   * Decoding a leftover of three digits gives two bytes, of two digits one
   * byte, of a single digit nothing; an output buffer too small for the
   * bytes makes the call answer 0.
   */
  lemma DecodeThreeDigitTail()
    ensures Decode(['Z' as int, 'm' as int, '8' as int], 8) == Decoded(2, 2, ['f' as int, 'o' as int])
  {
    var s: seq<byte> := ['Z' as int, 'm' as int, '8' as int];
    assert Sextet(s[0]) == 25;
    assert DecodeFrom(s, 0, 1, [], 8, false) == DecodeFrom(s, 1, 89, [], 8, false);
    assert Sextet(s[1]) == 38;
    assert DecodeFrom(s, 1, 89, [], 8, false) == DecodeFrom(s, 2, 5734, [], 8, false);
    assert Sextet(s[2]) == 60;
    assert DecodeFrom(s, 2, 5734, [], 8, false) == DecodeFrom(s, 3, 367036, [], 8, false);
  }

  lemma DecodeTwoDigitTail()
    ensures Decode(['Z' as int, 'g' as int], 8) == Decoded(1, 1, ['f' as int])
  {
    var s: seq<byte> := ['Z' as int, 'g' as int];
    assert Sextet(s[0]) == 25;
    assert DecodeFrom(s, 0, 1, [], 8, false) == DecodeFrom(s, 1, 89, [], 8, false);
    assert Sextet(s[1]) == 32;
    assert DecodeFrom(s, 1, 89, [], 8, false) == DecodeFrom(s, 2, 5728, [], 8, false);
  }

  lemma DecodeOneDigitTail()
    ensures Decode(['Z' as int, 'm' as int, '9' as int, 'v' as int, 'Y' as int], 8) == Decoded(3, 3, ['f' as int, 'o' as int, 'o' as int])
  {
    var s: seq<byte> := ['Z' as int, 'm' as int, '9' as int, 'v' as int, 'Y' as int];
    var n := 0x666f6f;
    assert Digit(n, 0) == 25 && Digit(n, 1) == 38 && Digit(n, 2) == 61 && Digit(n, 3) == 47;
    assert Letter(25) == s[0] && Letter(38) == s[1] && Letter(61) == s[2] && Letter(47) == s[3];
    DecodeFour(s, 0, n, [], 8);
    assert Sextet(s[4]) == 24;
    assert DecodeFrom(s, 4, 1, [102, 111, 111], 8, false) == DecodeFrom(s, 5, 88, [102, 111, 111], 8, false);
  }

  lemma DecodeTooSmall()
    ensures Decode(['Z' as int, 'm' as int, '9' as int, 'v' as int], 2) == Decoded(0, 2, [])
  {
    var s: seq<byte> := ['Z' as int, 'm' as int, '9' as int, 'v' as int];
    assert Sextet(s[0]) == 25;
    assert DecodeFrom(s, 0, 1, [], 2, false) == DecodeFrom(s, 1, 89, [], 2, false);
    assert Sextet(s[1]) == 38;
    assert DecodeFrom(s, 1, 89, [], 2, false) == DecodeFrom(s, 2, 5734, [], 2, false);
    assert Sextet(s[2]) == 61;
    assert DecodeFrom(s, 2, 5734, [], 2, false) == DecodeFrom(s, 3, 367037, [], 2, false);
    assert Sextet(s[3]) == 47;
    assert DecodeFrom(s, 3, 367037, [], 2, false) == Failed([]);
  }

  /**
   * The answer 0 is ambiguous: an empty encoding is a success that answers
   * 0, and so are decoding empty or pad-only input, alongside real failures.
   */
  lemma ZeroIsAmbiguous(cap: nat)
    ensures Encode([]) == []
    ensures Decode([], cap) == Decoded(0, 0, [])
    ensures Decode([PadByte, PadByte], cap) == Decoded(0, 0, [])
    ensures Decode([' ' as int], cap) == Decoded(0, cap, [])
  {
  }
}
