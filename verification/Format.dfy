/** The formatter of src/printf.c: the radix printer, the escape interpreter, and the 511-byte
    print buffer, with what each of them promises about the characters that reach the screen. */
module Format {
  import opened Words
  import opened Division
  import Console

  const PERCENT: byte := 37
  const MINUS: byte := 45
  const ZERO_CHAR: byte := 48
  const INT_MIN: int := -0x8000_0000

  type int32 = x: int | -0x8000_0000 <= x < 0x8000_0000

  // ----- numbers

  /** "0123456789abcdef"[k] */
  function DigitChar(k: int): byte
    requires 0 <= k < 16
  {
    if k < 10 then 48 + k else 87 + k
  }

  function DigitValue(c: byte): int {
    if 48 <= c <= 57 then c - 48 else if 97 <= c <= 102 then c - 87 else -1
  }

  /** What PrintNum emits. */
  function Digits(num: nat, base: int): (s: seq<byte>)
    requires 2 <= base <= 16
    ensures s != []
    decreases num
  {
    if num < base then [DigitChar(num)]
    else
      assert num / base < num by { QuotientShrinks(num, base); }
      Digits(num / base, base) + [DigitChar(num % base)]
  }

  lemma QuotientShrinks(num: nat, base: int)
    requires 2 <= base <= num
    ensures 0 < num / base < num
  {
    var q := num / base;
    assert num == q * base + num % base;
    ProductSign(q, base);
  }

  lemma ProductSign(q: int, base: int)
    requires base >= 2
    ensures q <= 0 ==> q * base <= 0
    ensures q > 0 ==> q * base >= 2 * q
  {
    assert q > 0 ==> q * (base - 2) >= 0;
  }

  /** Reading digits back, most significant first. */
  function Parse(s: seq<byte>, base: int): int {
    if s == [] then 0 else Parse(s[..|s| - 1], base) * base + DigitValue(s[|s| - 1])
  }

  lemma {:induction false} DigitsParse(num: nat, base: int)
    requires 2 <= base <= 16
    ensures Parse(Digits(num, base), base) == num
    decreases num
  {
    hide Parse, DigitChar, DigitValue;
    if num < base {
      DigitOf(num);
      ParseAppend([], DigitChar(num), base);
      assert Parse([], base) == 0 by { ParseNothing(base); }
      assert [] + [DigitChar(num)] == [DigitChar(num)];
    } else {
      QuotientShrinks(num, base);
      DigitsParse(num / base, base);
      var r := num % base;
      DigitOf(r);
      ParseAppend(Digits(num / base, base), DigitChar(r), base);
      assert Parse(Digits(num, base), base) == num / base * base + r;
    }
  }

  lemma DigitOf(k: nat)
    requires k < 16
    ensures DigitValue(DigitChar(k)) == k
  {}

  lemma ParseNothing(base: int)
    ensures Parse([], base) == 0
  {}

  lemma ParseAppend(s: seq<byte>, c: byte, base: int)
    ensures Parse(s + [c], base) == Parse(s, base) * base + DigitValue(c)
  {
    assert (s + [c])[..|s|] == s;
  }

  lemma {:induction false} DigitsWellFormed(num: nat, base: int)
    requires 2 <= base <= 16
    ensures forall i :: 0 <= i < |Digits(num, base)| ==> 0 <= DigitValue(Digits(num, base)[i]) < base
    ensures Digits(num, base)[0] == ZERO_CHAR <==> num == 0
    decreases num
  {
    if num >= base {
      QuotientShrinks(num, base);
      DigitsWellFormed(num / base, base);
    }
  }

  /** Round trip: in base 2 to 16 the printed digits parse back to the number, each is a digit
      of that base, and there is no leading zero. */
  lemma DigitsRoundTrip(num: nat, base: int)
    requires 2 <= base <= 16
    ensures Parse(Digits(num, base), base) == num
    ensures forall i :: 0 <= i < |Digits(num, base)| ==> 0 <= DigitValue(Digits(num, base)[i]) < base
    ensures Digits(num, base)[0] == ZERO_CHAR <==> num == 0
  {
    hide Digits, Parse;
    DigitsParse(num, base);
    DigitsWellFormed(num, base);
  }

  /** `%d` as coded: the negation wraps at INT_MIN, and the cast then sign-extends it. */
  function SignedDigits(i: int32): seq<byte> {
    if i >= 0 then Digits(i, 10)
    else if i == INT_MIN then [MINUS] + Digits(TWO64 + INT_MIN, 10)
    else [MINUS] + Digits(-i, 10)
  }

  function ParseSigned(s: seq<byte>): int {
    if s != [] && s[0] == MINUS then -Parse(s[1..], 10) else Parse(s, 10)
  }

  /** `%d` prints the number it is given if and only if that is not -2^31. */
  lemma SignedRoundTripIff(i: int32)
    ensures ParseSigned(SignedDigits(i)) == i <==> i != INT_MIN
  {
    var n: nat := if i >= 0 then i else if i == INT_MIN then TWO64 + INT_MIN else -i;
    DigitsRoundTrip(n, 10);
    assert ([MINUS] + Digits(n, 10))[1..] == Digits(n, 10);
    assert Digits(n, 10)[0] != MINUS;
  }

  // ----- escapes

  /** The characters of a C string: those before the first NUL, or all of them. */
  function CString(s: seq<byte>): seq<byte> { Before(s, 0) }

  /** An argument; a string is the memory its pointer points at. */
  datatype Arg =
    | Char(c: int32)
    | Str(s: seq<byte>)
    | NullStr
    | Int(i: int32)
    | UInt(u: uint32)
    | ULong(l: uint64)
    | Ptr(p: uint32)

  const NULL_TEXT: seq<byte> := [40, 110, 117, 108, 108, 41]

  /** The kind of argument a known escape letter reads. */
  predicate Takes(letter: byte, arg: Arg) {
    match letter
    case 99 => arg.Char?                      // c
    case 115 => arg.Str? || arg.NullStr?      // s
    case 100 => arg.Int?                      // d
    case 117 => arg.UInt?                     // u
    case 108 => arg.ULong?                    // l
    case 111 => arg.UInt?                     // o
    case 112 => arg.Ptr?                      // p
    case 120 => arg.UInt?                     // x
    case _ => false
  }

  predicate Known(letter: byte) { letter in {99, 115, 100, 117, 108, 111, 112, 120} }

  /** The characters one known escape letter prints for its argument. */
  function Expand(letter: byte, arg: Arg): seq<byte>
    requires Takes(letter, arg)
  {
    match arg
    case Char(c) => [c % 0x100]
    case Str(s) => CString(s)
    case NullStr => NULL_TEXT
    case Int(i) => SignedDigits(i)
    case UInt(u) => Digits(u, if letter == 117 then 10 else if letter == 111 then 8 else 16)
    case ULong(l) => Digits(l, 16)
    case Ptr(p) => [48, 120] + Digits(p, 16)
  }

  /** The argument list has what the format's escapes read from it, as va_arg requires. */
  predicate Fits(fmt: seq<byte>, args: seq<Arg>) {
    if fmt == [] then true
    else if fmt[0] != PERCENT || |fmt| == 1 then Fits(fmt[1..], args)
    else if Known(fmt[1]) then args != [] && Takes(fmt[1], args[0]) && Fits(fmt[2..], args[1..])
    else if fmt[1] == PERCENT then Fits(fmt[2..], args)
    else Fits(fmt[1..], args)
  }

  /** Everything VPrintFmt emits for a format string (its bytes before the terminator). */
  function Text(fmt: seq<byte>, args: seq<Arg>): seq<byte>
    requires Fits(fmt, args)
    decreases |fmt|
  {
    if fmt == [] then []
    else if fmt[0] != PERCENT then [fmt[0]] + Text(fmt[1..], args)
    else if |fmt| == 1 then [PERCENT]
    else if Known(fmt[1]) then Expand(fmt[1], args[0]) + Text(fmt[2..], args[1..])
    else if fmt[1] == PERCENT then [PERCENT] + Text(fmt[2..], args)
    else [PERCENT] + Text(fmt[1..], args)
  }

  function DoublePercents(s: seq<byte>): seq<byte> {
    if s == [] then [] else (if s[0] == PERCENT then [PERCENT, PERCENT] else [s[0]]) + DoublePercents(s[1..])
  }

  /** Doubling every '%' makes any string print as itself. */
  lemma {:induction false} DoubledPrintsItself(s: seq<byte>)
    ensures Fits(DoublePercents(s), []) && Text(DoublePercents(s), []) == s
  {
    if s != [] {
      DoubledPrintsItself(s[1..]);
      var d := DoublePercents(s);
      if s[0] == PERCENT {
        assert d[2..] == DoublePercents(s[1..]);
      } else {
        assert d[1..] == DoublePercents(s[1..]);
      }
    }
  }

  /** An unknown escape prints both its characters; a trailing '%' prints itself. */
  lemma UnknownEscapeIsLiteral(c: byte, rest: seq<byte>, args: seq<Arg>)
    requires c !in {37, 99, 100, 108, 111, 112, 115, 117, 120} && Fits(rest, args)
    ensures var fmt := [37, c] + rest;
            Fits(fmt, args) && Text(fmt, args) == [37, c] + Text(rest, args)
    ensures Fits([37], args) && Text([37], args) == [37]
  {
    var fmt := [PERCENT, c] + rest;
    assert fmt[1..] == [c] + rest && fmt[1..][1..] == rest;
  }

  // ----- what each escape prints

  /** `e` writes `u` in the base, without a leading zero. */
  predicate Numeral(e: seq<byte>, u: nat, base: int) {
    && e != [] && Parse(e, base) == u && (e[0] == 48 ==> |e| == 1)
    && forall i :: 0 <= i < |e| ==> 0 <= DigitValue(e[i]) < base
  }

  lemma DigitsAreNumeral(u: nat, base: int)
    requires 2 <= base <= 16
    ensures Numeral(Digits(u, base), u, base)
  {
    DigitsRoundTrip(u, base);
  }

  /** The digits are those of the source's table. */
  lemma DigitTable(k: nat)
    requires k < 16
    ensures DigitChar(k) == "0123456789abcdef"[k] as int
    ensures DigitValue("0123456789abcdef"[k] as int) == k
  {}

  lemma KnownEscape(letter: byte, arg: Arg, rest: seq<byte>, args: seq<Arg>)
    requires Known(letter) && Takes(letter, arg) && Fits(rest, args)
    ensures var fmt, all := [37, letter] + rest, [arg] + args;
            Fits(fmt, all) && Text(fmt, all) == Expand(letter, arg) + Text(rest, args)
  {
    var fmt, all := [37, letter] + rest, [arg] + args;
    assert fmt[2..] == rest && all[1..] == args;
  }

  /** `%u`, `%o` and `%x` print the number in base 10, 8 and 16. */
  lemma UnsignedEscapes(letter: byte, base: int, u: uint32, rest: seq<byte>, args: seq<Arg>)
    requires (letter == 117 && base == 10) || (letter == 111 && base == 8) || (letter == 120 && base == 16)
    requires Fits(rest, args)
    ensures Fits([37, letter] + rest, [UInt(u)] + args)
    ensures exists e :: Numeral(e, u, base) && Text([37, letter] + rest, [UInt(u)] + args) == e + Text(rest, args)
  {
    hide Fits, Text, Numeral;
    KnownEscape(letter, UInt(u), rest, args);
    DigitsAreNumeral(u, base);
  }

  /** `%l` prints a 64-bit number in base 16, `%p` a pointer as "0x" and base 16. */
  lemma LongAndPointerEscapes(l: uint64, p: uint32, rest: seq<byte>, args: seq<Arg>)
    requires Fits(rest, args)
    ensures Fits([37, 108] + rest, [ULong(l)] + args) && Fits([37, 112] + rest, [Ptr(p)] + args)
    ensures exists e :: Numeral(e, l, 16) && Text([37, 108] + rest, [ULong(l)] + args) == e + Text(rest, args)
    ensures exists e :: Numeral(e, p, 16) && Text([37, 112] + rest, [Ptr(p)] + args) == [48, 120] + e + Text(rest, args)
  {
    hide Fits, Text, Numeral;
    KnownEscape(108, ULong(l), rest, args);
    KnownEscape(112, Ptr(p), rest, args);
    DigitsAreNumeral(l, 16);
    DigitsAreNumeral(p, 16);
  }

  /** `%d` prints a number in base 10, a negative one as a minus sign and its magnitude; but
      -2^31 as a minus sign and 2^64 - 2^31. */
  lemma SignedEscape(i: int32, rest: seq<byte>, args: seq<Arg>)
    requires Fits(rest, args)
    ensures Fits([37, 100] + rest, [Int(i)] + args)
    ensures var t := Text([37, 100] + rest, [Int(i)] + args);
            if i >= 0 then exists e :: Numeral(e, i, 10) && t == e + Text(rest, args)
            else
              var magnitude := if i == -0x8000_0000 then 0x1_0000_0000_0000_0000 - 0x8000_0000 else -i;
              exists e :: Numeral(e, magnitude, 10) && t == [45] + e + Text(rest, args)
  {
    hide Fits, Text, Numeral;
    KnownEscape(100, Int(i), rest, args);
    DigitsAreNumeral(if i >= 0 then i else if i == INT_MIN then TWO64 + INT_MIN else -i, 10);
  }

  /** `%c` prints the low byte of its argument, `%s` the bytes before the string's NUL, or
      "(null)" for the null pointer. */
  lemma TextEscapes(c: int32, s: seq<byte>, n: nat, rest: seq<byte>, args: seq<Arg>)
    requires n < |s| && s[n] == 0 && (forall k :: 0 <= k < n ==> s[k] != 0) && Fits(rest, args)
    ensures Fits([37, 99] + rest, [Char(c)] + args) && Fits([37, 115] + rest, [Str(s)] + args)
    ensures Fits([37, 115] + rest, [NullStr] + args)
    ensures Text([37, 99] + rest, [Char(c)] + args) == [c % 256] + Text(rest, args)
    ensures Text([37, 115] + rest, [Str(s)] + args) == s[..n] + Text(rest, args)
    ensures Text([37, 115] + rest, [NullStr] + args) == [40, 110, 117, 108, 108, 41] + Text(rest, args)
  {
    hide Fits, Text, CString;
    KnownEscape(99, Char(c), rest, args);
    KnownEscape(115, Str(s), rest, args);
    KnownEscape(115, NullStr, rest, args);
    TerminatedCString(s, n);
    CStringWhole(s[..n]);
  }

  // ----- the print buffer

  const CHUNK: int := Console.CONSOLE_BUFFER_SIZE - 1

  /** What full buffers have shown, and what is still in the buffer. */
  function Flushed(e: seq<byte>): seq<byte> {
    if |e| < CHUNK then [] else CString(e[..CHUNK]) + Flushed(e[CHUNK..])
  }

  function Pending(e: seq<byte>): (r: seq<byte>)
    ensures |r| < CHUNK
  {
    if |e| < CHUNK then e else Pending(e[CHUNK..])
  }

  function Shown(e: seq<byte>): seq<byte> { Flushed(e) + CString(Pending(e)) }

  lemma {:induction false} PutOne(e: seq<byte>, ch: byte)
    ensures Pending(e + [ch]) == if |Pending(e)| == CHUNK - 1 then [] else Pending(e) + [ch]
    ensures Flushed(e + [ch])
            == if |Pending(e)| == CHUNK - 1 then Flushed(e) + CString(Pending(e) + [ch]) else Flushed(e)
    decreases |e|
  {
    if |e| >= CHUNK {
      assert (e + [ch])[..CHUNK] == e[..CHUNK] && (e + [ch])[CHUNK..] == e[CHUNK..] + [ch];
      PutOne(e[CHUNK..], ch);
    } else if |e| == CHUNK - 1 {
      assert (e + [ch])[..CHUNK] == e + [ch] && (e + [ch])[CHUNK..] == [];
    }
  }

  lemma {:induction false} CStringWhole(s: seq<byte>)
    ensures CString(s) == s <==> 0 !in s
    ensures 0 in s ==> |CString(s)| < |s|
  {
    if s != [] && s[0] != 0 {
      CStringWhole(s[1..]);
      assert s == [s[0]] + s[1..];
    }
  }

  /** The flushed buffers show exactly the emitted characters if and only if none is NUL. */
  lemma {:induction false} ShownIff(e: seq<byte>)
    ensures Shown(e) == e <==> 0 !in e
    ensures |Shown(e)| <= |e| && (0 in e ==> |Shown(e)| < |e|)
    decreases |e|
  {
    hide CString, Flushed, Pending;
    ShownUnfold(e);
    if |e| < CHUNK {
      CStringWhole(e);
    } else {
      var head, tail := e[..CHUNK], e[CHUNK..];
      assert e == head + tail;
      CStringWhole(head);
      ShownIff(tail);
      if 0 !in head {
        assert (head + Shown(tail))[CHUNK..] == Shown(tail);
      }
    }
  }

  lemma ShownUnfold(e: seq<byte>)
    ensures Shown(e) == if |e| < CHUNK then CString(e) else CString(e[..CHUNK]) + Shown(e[CHUNK..])
  {
    hide CString;
    if |e| >= CHUNK {
      assert CString(e[..CHUNK]) + Flushed(e[CHUNK..]) + CString(Pending(e[CHUNK..]))
          == CString(e[..CHUNK]) + (Flushed(e[CHUNK..]) + CString(Pending(e[CHUNK..])));
    }
  }

  class Printer {
    const buf: array<byte>
    var index: nat
    var count: nat
    var screen: seq<byte>       // what PutStr has shown
    ghost var emitted: seq<byte>
    ghost var before: seq<byte> // the screen at the start of the call

    ghost predicate Valid()
      reads this, buf
    {
      && buf.Length == Console.CONSOLE_BUFFER_SIZE
      && index == |Pending(emitted)| && buf[..index] == Pending(emitted)
      && count == |emitted|
      && screen == before + Flushed(emitted)
    }

    /** PutStr, as far as the characters go: those before the first NUL. */
    method PutStr(ghost nul: nat)
      requires nul < buf.Length && buf[nul] == 0
      modifies `screen
      ensures screen == old(screen) + CString(buf[..])
    {
      hide CString;
      ghost var s := buf[..];
      var i := 0;
      assert s[0..] == s;
      while buf[i] != 0
        invariant i <= nul && buf[..] == s && screen + CString(s[i..]) == old(screen) + CString(s)
        decreases nul - i
      {
        CStringStep(s, i);
        AppendAssoc(screen, [s[i]], CString(s[i + 1..]));
        screen := screen + [buf[i]];
        i := i + 1;
      }
      CStringStep(s, i);
      assert screen + [] == screen;
    }

    method PutCh(ch: byte)
      requires Valid()
      modifies this, buf
      ensures Valid() && emitted == old(emitted) + [ch] && before == old(before)
    {
      hide CString, Flushed, Pending;
      PutOne(emitted, ch);
      ghost var pending := Pending(emitted) + [ch];
      buf[index] := ch;
      index := index + 1;
      assert buf[..index] == pending;
      if index >= Console.CONSOLE_BUFFER_SIZE - 1 {
        FlushFull();
        assert buf[..0] == [];
      }
      count := count + 1;
      emitted := emitted + [ch];
    }

    /** Terminate the buffer, show it and start over. */
    method FlushFull()
      requires buf.Length == Console.CONSOLE_BUFFER_SIZE && index < Console.CONSOLE_BUFFER_SIZE
      modifies `index, `screen, buf
      ensures index == 0 && screen == old(screen) + CString(old(buf[..index]))
    {
      hide CString;
      ghost var pending := buf[..index];
      buf[index] := 0;
      assert buf[..index] == pending;
      TerminatedCString(buf[..], index);
      assert buf[..][..index] == pending;
      PutStr(index);
      index := 0;
    }

    /** PrintNum: the more significant digits by recursion, then this one. */
    method PrintNum(num: uint64, base: uint32)
      requires Valid() && 2 <= base <= 16
      modifies this, buf
      ensures Valid() && emitted == old(emitted) + Digits(num, base) && before == old(before)
      decreases num
    {
      if num >= base {
        QuotientShrinks(num, base);
        var q := Divide64by32(num, base);
        PrintNum(q, base);
      }
      var r := Modulo64by32(num, base);
      if num < base {
        DivModUnique(num, base, 0, num);
      }
      PutCh(DigitChar(r));
    }

    /** The characters of a string argument; its end is as good as a NUL. */
    method PutAll(s: seq<byte>)
      requires Valid()
      modifies this, buf
      ensures Valid() && emitted == old(emitted) + CString(s) && before == old(before)
    {
      hide Valid, CString;
      var i := 0;
      assert s[0..] == s;
      while i < |s| && s[i] != 0
        invariant i <= |s| && Valid() && emitted + CString(s[i..]) == old(emitted) + CString(s) && before == old(before)
      {
        CStringStep(s, i);
        AppendAssoc(emitted, [s[i]], CString(s[i + 1..]));
        PutCh(s[i]);
        i := i + 1;
      }
      assert CString(s[i..]) == [] by {
        if i < |s| {
          CStringStep(s, i);
        } else {
          assert s[i..] == [];
          CStringWhole([]);
        }
      }
      assert emitted + [] == emitted;
    }

    /** One known escape: the `case` bodies of VPrintFmt. */
    method PutEscape(letter: byte, arg: Arg)
      requires Valid() && Takes(letter, arg)
      modifies this, buf
      ensures Valid() && emitted == old(emitted) + Expand(letter, arg) && before == old(before)
    {
      hide Valid, Digits, SignedDigits, CString;
      CStringWhole(NULL_TEXT);
      match arg
      case Char(c) => PutCh(c % 0x100);
      case Str(s) => PutAll(s);
      case NullStr => PutAll(NULL_TEXT);
      case Int(i) => PutSigned(i);
      case UInt(u) => PrintNum(u, if letter == 117 then 10 else if letter == 111 then 8 else 16);
      case ULong(l) => PrintNum(l, 16);
      case Ptr(p) =>
        PutCh(48);
        PutCh(120);
        PrintNum(p, 16);
        assert old(emitted) + [48] + [120] + Digits(p, 16) == old(emitted) + ([48, 120] + Digits(p, 16));
    }

    method PutSigned(i: int32)
      requires Valid()
      modifies this, buf
      ensures Valid() && emitted == old(emitted) + SignedDigits(i) && before == old(before)
    {
      hide Valid, Digits;
      var numSigned: int32 := i;
      if numSigned < 0 {
        PutCh(MINUS);
        numSigned := if i == INT_MIN then INT_MIN else -i;
      }
      PrintNum(if numSigned < 0 then TWO64 + numSigned else numSigned, 10);
    }

    /** VPrintFmt; position `|fmt|` is the terminator, the last byte it reads. */
    method VPrintFmt(fmt: seq<byte>, args: seq<Arg>)
      requires Valid() && 0 !in fmt && Fits(fmt, args)
      modifies this, buf
      ensures Valid() && emitted == old(emitted) + Text(fmt, args) && before == old(before)
    {
      hide Valid, Text, Fits;
      var p, a := 0, 0;
      assert fmt[0..] == fmt && args[0..] == args;
      while true
        invariant 0 <= p <= |fmt| && 0 <= a <= |args| && Valid() && before == old(before)
        invariant Fits(fmt[p..], args[a..])
        invariant emitted + Text(fmt[p..], args[a..]) == old(emitted) + Text(fmt, args)
        decreases |fmt| - p
      {
        while p < |fmt| && fmt[p] != PERCENT
          invariant 0 <= p <= |fmt| && Valid() && before == old(before)
          invariant Fits(fmt[p..], args[a..])
          invariant emitted + Text(fmt[p..], args[a..]) == old(emitted) + Text(fmt, args)
        {
          LiteralUnfold(fmt, args, p, a);
          PutCh(fmt[p]);
          p := p + 1;
        }
        if p == |fmt| {
          TextOfNothing(args[a..]);
          assert fmt[p..] == [] && emitted + [] == emitted;
          return;
        }
        a, p := PutPercent(fmt, args, p, a);
      }
    }

    /** What follows a '%': at most its letter and argument are consumed. */
    method PutPercent(fmt: seq<byte>, args: seq<Arg>, p: nat, a: nat) returns (a': nat, p': nat)
      requires Valid() && p < |fmt| && fmt[p] == PERCENT && a <= |args| && Fits(fmt[p..], args[a..])
      modifies this, buf
      ensures Valid() && before == old(before) && p < p' <= |fmt| && a' <= |args| && Fits(fmt[p'..], args[a'..])
      ensures emitted + Text(fmt[p'..], args[a'..]) == old(emitted) + Text(fmt[p..], args[a..])
    {
      hide Valid, Text, Fits, Expand, Takes;
      PercentUnfold(fmt, args, p, a);
      if p + 1 == |fmt| {
        PutCh(PERCENT);
        return a, p + 1;
      }
      var ch := fmt[p + 1];
      if Known(ch) {
        PutEscape(ch, args[a]);
        return a + 1, p + 2;
      } else if ch == PERCENT {
        PutCh(PERCENT);
        return a, p + 2;
      } else {
        PutCh(PERCENT);
        return a, p + 1;
      }
    }

    lemma LiteralUnfold(fmt: seq<byte>, args: seq<Arg>, p: nat, a: nat)
      requires p < |fmt| && fmt[p] != PERCENT && a <= |args| && Fits(fmt[p..], args[a..])
      ensures Fits(fmt[p + 1..], args[a..]) && Text(fmt[p..], args[a..]) == [fmt[p]] + Text(fmt[p + 1..], args[a..])
    {
      assert fmt[p..][1..] == fmt[p + 1..];
    }

    lemma TextOfNothing(args: seq<Arg>)
      ensures Fits([], args) && Text([], args) == []
    {}

    lemma PercentUnfold(fmt: seq<byte>, args: seq<Arg>, p: nat, a: nat)
      requires p < |fmt| && fmt[p] == PERCENT && a <= |args| && Fits(fmt[p..], args[a..])
      ensures if p + 1 == |fmt| then
                Fits(fmt[p + 1..], args[a..]) && Text(fmt[p..], args[a..]) == [PERCENT] + Text(fmt[p + 1..], args[a..])
              else if Known(fmt[p + 1]) then
                && a < |args| && Takes(fmt[p + 1], args[a]) && Fits(fmt[p + 2..], args[a + 1..])
                && Text(fmt[p..], args[a..]) == Expand(fmt[p + 1], args[a]) + Text(fmt[p + 2..], args[a + 1..])
              else
                var q := if fmt[p + 1] == PERCENT then p + 2 else p + 1;
                Fits(fmt[q..], args[a..]) && Text(fmt[p..], args[a..]) == [PERCENT] + Text(fmt[q..], args[a..])
    {
      var rest := fmt[p..];
      assert rest[1..] == fmt[p + 1..];
      if p + 1 < |fmt| {
        assert rest[1] == fmt[p + 1] && rest[2..] == fmt[p + 2..];
        if Known(fmt[p + 1]) {
          assert args[a..][0] == args[a] && args[a..][1..] == args[a + 1..];
        }
      }
    }

    /** VPrintf: the count is the number of characters emitted, and the screen gains what the
        buffers show of them (all of them, if none is NUL). */
    method VPrintf(fmt: seq<byte>, args: seq<Arg>) returns (n: nat)
      requires buf.Length == Console.CONSOLE_BUFFER_SIZE && 0 !in fmt && Fits(fmt, args)
      modifies this, buf
      ensures n == |Text(fmt, args)| && screen == old(screen) + Shown(Text(fmt, args))
      ensures 0 !in Text(fmt, args) ==> screen == old(screen) + Text(fmt, args)
    {
      hide Text, Fits, CString, Flushed, Pending, Shown;
      Start();
      VPrintFmt(fmt, args);
      n := Finish();
      ShownIff(Text(fmt, args));
      assert [] + Text(fmt, args) == Text(fmt, args);
    }

    method Start()
      requires buf.Length == Console.CONSOLE_BUFFER_SIZE
      modifies this
      ensures Valid() && emitted == [] && before == old(screen)
    {
      index, count := 0, 0;
      emitted, before := [], screen;
      assert Flushed([]) == [] && Pending([]) == [] && buf[..0] == [];
    }

    /** The last, partly filled buffer. */
    method Finish() returns (n: nat)
      requires Valid()
      modifies this, buf
      ensures n == |emitted| && emitted == old(emitted) && screen == old(before) + Shown(old(emitted))
    {
      hide CString, Flushed, Pending;
      n := count;
      FlushFull();
      assert before + Flushed(emitted) + CString(Pending(emitted)) == before + Shown(emitted);
    }
  }

  lemma AppendAssoc(a: seq<byte>, b: seq<byte>, c: seq<byte>)
    ensures a + b + c == a + (b + c)
  {}

  lemma CStringStep(s: seq<byte>, i: nat)
    requires i < |s|
    ensures CString(s[i..]) == if s[i] == 0 then [] else [s[i]] + CString(s[i + 1..])
  {
    assert s[i..][1..] == s[i + 1..];
  }

  lemma {:induction false} TerminatedCString(s: seq<byte>, n: nat)
    requires n < |s| && s[n] == 0
    ensures CString(s) == CString(s[..n])
  {
    if n > 0 && s[0] != 0 {
      TerminatedCString(s[1..], n - 1);
      assert s[..n][1..] == s[1..][..n - 1];
    }
  }
}
