/** What the legacy second stage's `vsnprintf` engine (`io.c`) produces,
    as text: the digits `_ntoa` generates, the sign, prefix and zeros it
    adds, the padding `_format_output` applies, the conversion-spec parser
    and the whole output of a format string with its arguments. The
    methods that build this text step by step are in module `Format`.

    The target is a 32-bit compiler: `int`, `long`, `size_t`, `ptrdiff_t`
    and pointers are 32 bits wide, `long long` and `intmax_t` 64 bits;
    `width` and `precision` are `uint16_t`. */
module FormatText {
  import opened Bytes
  import opened Wrappers

  /** The length modifier of a conversion (`hh`, `h`, `l`, `ll`, `j`,
      `z`, `t` or none). `hh` sets both FLAG_SHORT and FLAG_CHAR, `ll`
      both FLAG_LONG and FLAG_LONG_LONG; the dispatch tests FLAG_CHAR
      before FLAG_SHORT and FLAG_LONG_LONG before FLAG_LONG, so one value
      says which one applies. */
  datatype Length = Default | Char | Short | Long | LongLong | IntMax | Size | PtrDiff

  /** A parsed conversion spec: the flag bits FLAG_LEFT, FLAG_SIGN,
      FLAG_SPACE, FLAG_HASH, FLAG_ZERO and FLAG_PRECISION, the 16-bit
      width and precision, and the length modifier. */
  datatype Spec = Spec(left: bool, sign: bool, space: bool, hash: bool, zero: bool,
                       precise: bool, width: word, precision: word, length: Length)

  /** An argument, already taken off the variable argument list: an
      integer (also a character or a pointer) or a string. */
  datatype Arg = Int(value: int) | Str(chars: seq<char>)

  /** Where the source would do something the model cannot follow: run
      out of arguments (or find one of the wrong kind), write past the
      32 characters of `num_buffer`, or step past the format string's
      terminator. */
  datatype Fault = MissingArgument | NumBufferOverrun | PastTerminator

  /** The output of a format string, or the fault that stops it. */
  datatype Rendered = Text(chars: seq<char>) | Failed(fault: Fault)

  const NumBufferSize: nat := 32

  // Digits

  /** The digit tables `hcase_alphabet` and `lcase_alphabet`. */
  function Alphabet(hcase: bool): (r: seq<char>)
    ensures |r| == 16
  {
    if hcase then "0123456789ABCDEF" else "0123456789abcdef"
  }

  /** The character for digit `d`, computed: a decimal digit, or a letter
      from `A`/`a` on. */
  function DigitChar(d: nat, hcase: bool): char
    requires d < 16
  {
    if d < 10 then ('0' as int + d) as char
    else ((if hcase then 'A' else 'a') as int + d - 10) as char
  }

  /** `DigitChar` reads the tables. */
  lemma DigitTables(d: nat, hcase: bool)
    requires d < 16
    ensures DigitChar(d, hcase) == Alphabet(hcase)[d]
  {
  }

  /** The digits of `num` in base `radix`, most significant first, with
      the letters of the alphabet `hcase` chooses; `"0"` for zero. */
  function Digits(num: nat, radix: nat, hcase: bool): (r: seq<char>)
    requires 2 <= radix <= 16
    decreases num
  {
    (if num < radix then [] else Digits(num / radix, radix, hcase)) + [DigitChar(num % radix, hcase)]
  }

  /** The value of a digit character of either case. */
  function DigitValue(c: char): nat
  {
    if '0' <= c <= '9' then c as nat - '0' as nat
    else if 'a' <= c <= 'f' then c as nat - 'a' as nat + 10
    else if 'A' <= c <= 'F' then c as nat - 'A' as nat + 10
    else 0
  }

  /** The number a string of digits denotes in base `radix`. */
  function Value(s: seq<char>, radix: nat): nat
  {
    if s == [] then 0 else Value(s[..|s| - 1], radix) * radix + DigitValue(s[|s| - 1])
  }

  /** Dividing by the radix: the digit is below the radix and rebuilds
      `n` with the quotient, which is zero exactly when `n` is below the
      radix and otherwise smaller than `n`. */
  lemma DivStep(n: nat, radix: nat, q: nat, d: nat)
    requires 2 <= radix && q == n / radix && d == n % radix
    ensures n == q * radix + d && d < radix
    ensures (q == 0 <==> n < radix) && (n < radix ==> d == n) && (n > 0 ==> q < n)
  {
    assert n == radix * q + d;
    if q > 0 {
      assert radix * q >= 2 * q;
    }
  }

  /** The digits of `n`: those of the quotient, then the last digit. */
  lemma DigitsStep(n: nat, radix: nat, hcase: bool, q: nat, d: nat)
    requires 2 <= radix <= 16 && q == n / radix && d == n % radix
    ensures d < radix && (q == 0 <==> n < radix) && (n > 0 ==> q < n) && n == q * radix + d
    ensures Digits(n, radix, hcase) == (if q == 0 then [] else Digits(q, radix, hcase)) + [DigitChar(d, hcase)]
  {
    DivStep(n, radix, q, d);
  }

  /** The digits `_ntoa` generates denote `num`. */
  lemma {:induction false} DigitsDenote(num: nat, radix: nat, hcase: bool)
    requires 2 <= radix <= 16
    ensures Value(Digits(num, radix, hcase), radix) == num
    decreases num
  {
    var ds := Digits(num, radix, hcase);
    var q, d := num / radix, num % radix;
    DigitsStep(num, radix, hcase, q, d);
    assert DigitValue(ds[|ds| - 1]) == d;
    if q > 0 {
      DigitsDenote(q, radix, hcase);
      assert ds[..|ds| - 1] == Digits(q, radix, hcase);
    } else {
      assert ds[..|ds| - 1] == [];
    }
  }

  /** The first digit is `0` only for zero: no leading zeros. */
  lemma {:induction false} DigitsLead(num: nat, radix: nat, hcase: bool)
    requires 2 <= radix <= 16
    ensures Digits(num, radix, hcase)[0] == '0' <==> num == 0
    decreases num
  {
    var q, d := num / radix, num % radix;
    DigitsStep(num, radix, hcase, q, d);
    if q > 0 {
      DigitsLead(q, radix, hcase);
    }
  }

  /** Every digit is a letter of the chosen alphabet below the radix. */
  lemma {:induction false} DigitsAlphabet(num: nat, radix: nat, hcase: bool)
    requires 2 <= radix <= 16
    ensures forall c :: c in Digits(num, radix, hcase) ==> c in Alphabet(hcase)[..radix]
    decreases num
  {
    var q, d := num / radix, num % radix;
    DigitsStep(num, radix, hcase, q, d);
    DigitTables(d, hcase);
    assert Alphabet(hcase)[d] == Alphabet(hcase)[..radix][d];
    if q > 0 {
      DigitsAlphabet(q, radix, hcase);
    }
  }

  // The text `_ntoa` leaves in `num_buffer`

  /** The sign `_ntoa` writes: `-` for a negative number, otherwise `+`
      with FLAG_SIGN, otherwise a space with FLAG_SPACE. */
  function SignText(negative: bool, spec: Spec): seq<char>
  {
    if negative then "-" else if spec.sign then "+" else if spec.space then " " else ""
  }

  /** The FLAG_HASH prefix: `0x` or `0X` in base 16, `0` in base 8. */
  function PrefixText(radix: nat, spec: Spec, hcase: bool): seq<char>
  {
    if !spec.hash then ""
    else (if radix % 8 == 0 then "0" else "") + (if radix == 16 then (if hcase then "X" else "x") else "")
  }

  /** `n` copies of `c`. */
  function Repeat(c: char, n: nat): (r: seq<char>)
    ensures |r| == n && forall i :: 0 <= i < n ==> r[i] == c
  {
    seq(n, i => c)
  }

  /** The zeros that bring the digits up to the precision, with
      FLAG_PRECISION. */
  function ZerosText(digits: nat, spec: Spec): seq<char>
  {
    if spec.precise && digits < spec.precision then Repeat('0', spec.precision - digits) else ""
  }

  /** `_ntoa`'s result: sign, prefix, zeros, digits. */
  function NtoaText(num: nat, negative: bool, radix: nat, spec: Spec, hcase: bool): seq<char>
    requires 2 <= radix <= 16
  {
    var ds := Digits(num, radix, hcase);
    SignText(negative, spec) + PrefixText(radix, spec, hcase) + ZerosText(|ds|, spec) + ds
  }

  /** The length of `_ntoa`'s result: the sign, the prefix, and the digits
      or the precision, whichever is longer. */
  lemma NtoaLength(num: nat, negative: bool, radix: nat, spec: Spec, hcase: bool)
    requires 2 <= radix <= 16
    ensures var n := |Digits(num, radix, hcase)|;
      |NtoaText(num, negative, radix, spec, hcase)|
      == |SignText(negative, spec)| + |PrefixText(radix, spec, hcase)|
         + (if spec.precise && n < spec.precision then spec.precision else n)
  {
  }

  // Padding

  /** The fill character: `0` with FLAG_ZERO, a space otherwise. */
  function Fill(spec: Spec): char
  {
    if spec.zero then '0' else ' '
  }

  /** `_format_output`'s text: the output padded with the fill character
      up to the width, after it with FLAG_LEFT and before it otherwise. */
  function Padded(output: seq<char>, spec: Spec): seq<char>
  {
    var pad := if |output| < spec.width then Repeat(Fill(spec), spec.width - |output|) else [];
    if spec.left then output + pad else pad + output
  }

  /** The padded text is as long as the output or the width, whichever is
      more; it holds the output at its start (FLAG_LEFT) or its end, and
      the fill character everywhere else. */
  lemma PaddedShape(output: seq<char>, spec: Spec)
    ensures var p := Padded(output, spec);
      var start := if spec.left then 0 else |p| - |output|;
      |p| == (if |output| < spec.width then spec.width as nat else |output|)
      && p[start..start + |output|] == output
      && forall i :: 0 <= i < |p| && !(start <= i < start + |output|) ==> p[i] == Fill(spec)
  {
    var p := Padded(output, spec);
    var start := if spec.left then 0 else |p| - |output|;
    if spec.left {
      assert p[..|output|] == output;
    } else {
      assert p[start..] == output;
    }
  }

  // The buffer writes

  /** `_buffer_mem`: the character lands at `index` only when `index` is
      below `max_size`. */
  function Put(s: seq<char>, maxSize: nat, index: nat, ch: char): (r: seq<char>)
    requires maxSize <= |s|
    ensures |r| == |s|
  {
    if index < maxSize then s[index := ch] else s
  }

  /** The writes of `text` from `index` on, one `_buffer_mem` call per
      character. */
  function PutAll(s: seq<char>, maxSize: nat, index: nat, text: seq<char>): (r: seq<char>)
    requires maxSize <= |s|
    ensures |r| == |s|
    decreases |text|
  {
    if text == [] then s else PutAll(Put(s, maxSize, index, text[0]), maxSize, index + 1, text[1..])
  }

  /** After the writes, a position below `max_size` inside the text's span
      holds its character; every other position is unchanged. */
  lemma {:induction false} PutAllAt(s: seq<char>, maxSize: nat, index: nat, text: seq<char>, i: nat)
    requires maxSize <= |s| && i < |s|
    ensures PutAll(s, maxSize, index, text)[i]
      == if index <= i < index + |text| && i < maxSize then text[i - index] else s[i]
    decreases |text|
  {
    if text != [] {
      PutAllAt(Put(s, maxSize, index, text[0]), maxSize, index + 1, text[1..], i);
    }
  }

  /** Writing two texts one after the other is writing their
      concatenation. */
  lemma {:induction false} PutAllAppend(s: seq<char>, maxSize: nat, index: nat, t: seq<char>, u: seq<char>)
    requires maxSize <= |s|
    ensures PutAll(PutAll(s, maxSize, index, t), maxSize, index + |t|, u) == PutAll(s, maxSize, index, t + u)
    decreases |t|
  {
    if t == [] {
      assert t + u == u;
    } else {
      var s' := Put(s, maxSize, index, t[0]);
      assert (t + u)[0] == t[0];
      assert (t + u)[1..] == t[1..] + u;
      assert PutAll(s, maxSize, index, t + u) == PutAll(s', maxSize, index + 1, t[1..] + u);
      assert PutAll(s, maxSize, index, t) == PutAll(s', maxSize, index + 1, t[1..]);
      assert index + |t| == index + 1 + |t[1..]|;
      PutAllAppend(s', maxSize, index + 1, t[1..], u);
    }
  }

  /** The terminator `_vsnprintf` places last, at the end of the output or
      in the last slot of the buffer. With `max_size` zero the index
      `max_size - 1` wraps to the largest `size_t` and nothing is
      written. */
  function Terminate(s: seq<char>, maxSize: nat, index: nat): (r: seq<char>)
    requires maxSize <= |s|
    ensures |r| == |s|
  {
    if maxSize == 0 then s else Put(s, maxSize, if index < maxSize then index else maxSize - 1, '\0')
  }

  /** What `snprintf` promises: with room for at least one character, the
      buffer holds the longest prefix of the output that fits with its
      terminator, then the terminator, and nothing after it changes. */
  lemma Truncation(s: seq<char>, maxSize: nat, t: seq<char>)
    requires 0 < maxSize <= |s|
    ensures var k := if |t| < maxSize then |t| else maxSize - 1;
      var r := Terminate(PutAll(s, maxSize, 0, t), maxSize, |t|);
      r[..k] == t[..k] && r[k] == '\0' && r[k + 1..] == s[k + 1..]
  {
    var k := if |t| < maxSize then |t| else maxSize - 1;
    var w := PutAll(s, maxSize, 0, t);
    var r := Terminate(w, maxSize, |t|);
    forall i | 0 <= i < |s|
      ensures r[i] == if i < k then t[i] else if i == k then '\0' else s[i]
    {
      PutAllAt(s, maxSize, 0, t, i);
    }
    assert r[..k] == t[..k];
    assert r[k + 1..] == s[k + 1..];
  }

  // Parsing a conversion spec

  /** The format character at `i`; the terminator after the last one. */
  function CharAt(fmt: seq<char>, i: nat): char
  {
    if i < |fmt| then fmt[i] else '\0'
  }

  function IsDigit(c: char): bool
  {
    '0' <= c <= '9'
  }

  /** The flag loop: each of `-`, `+`, space, `#` and `0` sets its flag;
      any other character ends the loop. */
  function Flags(fmt: seq<char>, pos: nat, spec: Spec): (r: (Spec, nat))
    ensures pos <= r.1 && (r.1 > pos ==> r.1 <= |fmt|)
    decreases |fmt| - pos
  {
    match CharAt(fmt, pos)
    case '-' => Flags(fmt, pos + 1, spec.(left := true))
    case '+' => Flags(fmt, pos + 1, spec.(sign := true))
    case ' ' => Flags(fmt, pos + 1, spec.(space := true))
    case '#' => Flags(fmt, pos + 1, spec.(hash := true))
    case '0' => Flags(fmt, pos + 1, spec.(zero := true))
    case _ => (spec, pos)
  }

  /** A run of decimal digits read into a 16-bit accumulator:
      `acc = acc * 10 + digit`, wrapping modulo 2^16. Gives the value and
      the position after the run. */
  function DigitRun(fmt: seq<char>, pos: nat, acc: word): (r: (word, nat))
    ensures pos <= r.1 && (r.1 > pos ==> r.1 <= |fmt|)
    decreases |fmt| - pos
  {
    var c := CharAt(fmt, pos);
    if IsDigit(c) then DigitRun(fmt, pos + 1, (acc * 10 + (c as nat - '0' as nat)) % U16)
    else (acc, pos)
  }

  /** The digit run stops at the first non-digit, and its value is the
      run read as a decimal number, modulo 2^16. */
  lemma {:induction false} DigitRunDecimal(fmt: seq<char>, pos: nat, acc: word, start: nat)
    requires start <= pos <= |fmt|
    requires forall i :: start <= i < pos ==> IsDigit(fmt[i])
    requires acc == Value(fmt[start..pos], 10) % U16
    ensures var (v, end) := DigitRun(fmt, pos, acc);
      pos <= end <= |fmt| && !IsDigit(CharAt(fmt, end))
      && (forall i :: start <= i < end ==> IsDigit(fmt[i]))
      && v == Value(fmt[start..end], 10) % U16
    decreases |fmt| - pos
  {
    var c := CharAt(fmt, pos);
    if IsDigit(c) {
      var d := c as nat - '0' as nat;
      var acc' := (acc * 10 + d) % U16;
      assert fmt[start..pos + 1][..pos - start] == fmt[start..pos];
      assert acc' == Value(fmt[start..pos + 1], 10) % U16 by {
        WrapStep(Value(fmt[start..pos], 10), acc, d);
      }
      DigitRunDecimal(fmt, pos + 1, acc', start);
    }
  }

  /** Reducing modulo 2^16 before or after a decimal step agrees. */
  lemma WrapStep(v: nat, acc: nat, d: nat)
    requires acc == v % U16
    ensures (acc * 10 + d) % U16 == (v * 10 + d) % U16
  {
    var k := v / U16;
    assert v == U16 * k + acc;
    assert v * 10 + d == U16 * (10 * k) + (acc * 10 + d);
    ModUnique(v * 10 + d, U16, 10 * k + (acc * 10 + d) / U16, (acc * 10 + d) % U16);
  }

  /** A `*` width or precision is an `int` argument (32 bits, signed). */
  function IntArg(v: int): int
  {
    Wrap(v, U32)
  }

  /** The argument at `next`, when there is one and it is an integer. */
  function IntAt(args: seq<Arg>, next: nat): (r: Option<int>)
  {
    if next < |args| && args[next].Int? then Some(args[next].value) else None
  }

  /** The result of parsing a spec: the spec, the position of the
      conversion character and the next argument. */
  datatype Parsed = Parsed(spec: Spec, pos: nat, next: nat) | NoArgument

  /** The width: `*` takes an `int` argument, whose negative value sets
      FLAG_LEFT and is negated; otherwise a digit run. Both are stored in
      16 bits. */
  function Width(fmt: seq<char>, pos: nat, args: seq<Arg>, next: nat, spec: Spec): Parsed
  {
    if CharAt(fmt, pos) == '*' then
      match IntAt(args, next)
      case None => NoArgument
      case Some(v) =>
        var w := IntArg(v);
        if w < 0 then Parsed(spec.(left := true, width := (-w) % U16), pos + 1, next + 1)
        else Parsed(spec.(width := w % U16), pos + 1, next + 1)
    else
      var (w, end) := DigitRun(fmt, pos, 0);
      Parsed(spec.(width := w), end, next)
  }

  /** The precision after a `.`, which also sets FLAG_PRECISION: `*` takes
      an `int` argument, a negative one giving 0; otherwise a digit run. */
  function Precision(fmt: seq<char>, pos: nat, args: seq<Arg>, next: nat, spec: Spec): Parsed
  {
    if CharAt(fmt, pos) != '.' then Parsed(spec, pos, next)
    else if CharAt(fmt, pos + 1) == '*' then
      match IntAt(args, next)
      case None => NoArgument
      case Some(v) =>
        var p := IntArg(v);
        Parsed(spec.(precise := true, precision := if p < 0 then 0 else p % U16), pos + 2, next + 1)
    else
      var (p, end) := DigitRun(fmt, pos + 1, 0);
      Parsed(spec.(precise := true, precision := p), end, next)
  }

  /** The length modifier and the position after it. */
  function LengthOf(fmt: seq<char>, pos: nat): (Length, nat)
  {
    match CharAt(fmt, pos)
    case 'h' => if CharAt(fmt, pos + 1) == 'h' then (Char, pos + 2) else (Short, pos + 1)
    case 'l' => if CharAt(fmt, pos + 1) == 'l' then (LongLong, pos + 2) else (Long, pos + 1)
    case 'j' => (IntMax, pos + 1)
    case 'z' => (Size, pos + 1)
    case 't' => (PtrDiff, pos + 1)
    case _ => (Default, pos)
  }

  const NoFlags := Spec(false, false, false, false, false, false, 0, 0, Default)

  /** The spec that starts at `pos`, just after the `%`. */
  function ParseSpec(fmt: seq<char>, pos: nat, args: seq<Arg>, next: nat): Parsed
  {
    var (flagged, p1) := Flags(fmt, pos, NoFlags);
    match Width(fmt, p1, args, next, flagged)
    case NoArgument => NoArgument
    case Parsed(s2, p2, n2) =>
      match Precision(fmt, p2, args, n2, s2)
      case NoArgument => NoArgument
      case Parsed(s3, p3, n3) =>
        var (len, p4) := LengthOf(fmt, p3);
        Parsed(s3.(length := len), p4, n3)
  }

  // The conversions

  /** The two's-complement reading of `v`'s bits modulo `m`, a power of
      two: the value of a signed C integer of that width. */
  function Wrap(v: int, m: nat): (r: int)
    requires m >= 2
    ensures -(m / 2) <= r < m - m / 2
  {
    var u := v % m;
    if u < m - m / 2 then u else u - m
  }

  /** A value that fits the signed width is read back unchanged. */
  lemma WrapFits(v: int, m: nat)
    requires m >= 2 && -(m / 2) <= v < m - m / 2
    ensures Wrap(v, m) == v
  {
    if v < 0 {
      ModUnique(v, m, -1, v + m);
    } else {
      ModUnique(v, m, 0, v);
    }
  }

  /** The value a `%d`/`%i` conversion sees as the source is written: it
      clears the 64-bit `intmax_t` member of its argument union and then
      stores the narrower argument into its low bytes, so only the 64-bit
      lengths keep a sign; every other length is read back as the
      unsigned value of its bits. */
  function SignedSeen(v: int, len: Length): int
  {
    match len
    case Char => v % U8
    case Short => v % U16
    case LongLong => Wrap(v, U64)
    case IntMax => Wrap(v, U64)
    case _ => v % U32
  }

  /** The value a `%d`/`%i` conversion is meant to print: the argument as
      the signed type its length names (`char` is signed on this target;
      `size_t`, 32 bits, is unsigned). */
  function SignedValue(v: int, len: Length): int
  {
    match len
    case Char => Wrap(v, U8)
    case Short => Wrap(v, U16)
    case LongLong => Wrap(v, U64)
    case IntMax => Wrap(v, U64)
    case Size => v % U32
    case _ => Wrap(v, U32)
  }

  /** A negative `int` argument: as written, `%d` sees it as its unsigned
      32-bit pattern, 2^32 more than the value meant. */
  lemma NegativeIntUnsigned(v: int)
    requires -0x8000_0000 <= v < 0
    ensures SignedSeen(v, Default) == v + U32 && SignedSeen(v, Default) > 0
    ensures SignedValue(v, Default) == v
  {
    ModUnique(v, U32, -1, v + U32);
    WrapFits(v, U32);
  }

  /** The value a `%u`/`%o`/`%x`/`%X` conversion sees: the argument's bits
      at its length. */
  function UnsignedSeen(v: int, len: Length): nat
  {
    match len
    case Char => v % U8
    case Short => v % U16
    case LongLong => v % U64
    case IntMax => v % U64
    case _ => v % U32
  }

  /** `-x` for the magnitude passed to `_ntoa`; `-2^63` gives `2^63`. */
  function Magnitude(v: int): nat
  {
    if v < 0 then -v else v
  }

  /** The text of a number conversion, padded, or the overrun of the
      32-character `num_buffer` that `_ntoa` would write past. */
  function Number(num: nat, negative: bool, radix: nat, spec: Spec, hcase: bool): Rendered
    requires 2 <= radix <= 16
  {
    var t := NtoaText(num, negative, radix, spec, hcase);
    if |t| > NumBufferSize then Failed(NumBufferOverrun) else Text(Padded(t, spec))
  }

  /** The result of one conversion: its text and the next argument. */
  datatype Converted = Converted(text: seq<char>, next: nat) | Stopped(fault: Fault)

  /** One conversion character with its parsed spec. */
  function Convert(c: char, spec: Spec, args: seq<Arg>, next: nat): Converted
  {
    match c
    case 'd' => SignedConversion(spec, args, next)
    case 'i' => SignedConversion(spec, args, next)
    case 'u' => UnsignedConversion(10, false, spec, args, next)
    case 'o' => UnsignedConversion(8, false, spec, args, next)
    case 'x' => UnsignedConversion(16, false, spec, args, next)
    case 'X' => UnsignedConversion(16, true, spec, args, next)
    case 'c' =>
      if spec.length == Long then Converted(Padded("\0", spec), next)
      else (match IntAt(args, next)
        case None => Stopped(MissingArgument)
        case Some(v) => Converted(Padded([(v % U8) as char], spec), next + 1))
    case 's' =>
      if next < |args| && args[next].Str? then
        Converted(if spec.length == Long then [] else Padded(UntilNul(args[next].chars), spec), next + 1)
      else Stopped(MissingArgument)
    case 'p' =>
      (match IntAt(args, next)
        case None => Stopped(MissingArgument)
        case Some(v) => Attach(Number(v % U32, false, 16, spec.(hash := true), false), next + 1))
    case 'n' =>
      if next < |args| then Converted([], next + 1) else Stopped(MissingArgument)
    case '%' => Converted(Padded("%", spec), next)
    case _ => Converted([], next)
  }

  function SignedConversion(spec: Spec, args: seq<Arg>, next: nat): Converted
  {
    match IntAt(args, next)
    case None => Stopped(MissingArgument)
    case Some(v) =>
      var x := SignedValue(v, spec.length);
      Attach(Number(Magnitude(x), x < 0, 10, spec, false), next + 1)
  }

  function UnsignedConversion(radix: nat, hcase: bool, spec: Spec, args: seq<Arg>, next: nat): Converted
    requires 2 <= radix <= 16
  {
    match IntAt(args, next)
    case None => Stopped(MissingArgument)
    case Some(v) => Attach(Number(UnsignedSeen(v, spec.length), false, radix, spec, hcase), next + 1)
  }

  function Attach(r: Rendered, next: nat): Converted
  {
    match r
    case Text(t) => Converted(t, next)
    case Failed(f) => Stopped(f)
  }

  /** The characters of a string argument before its terminator. */
  function UntilNul(s: seq<char>): (r: seq<char>)
    ensures |r| <= |s| && r == s[..|r|] && '\0' !in r && (|r| < |s| ==> s[|r|] == '\0')
  {
    if s == [] || s[0] == '\0' then [] else [s[0]] + UntilNul(s[1..])
  }

  // The whole format string

  /** One round of `_vsnprintf`'s loop from `pos`: a plain character is
      copied; a `%` starts a spec, whose conversion character is consumed
      whatever it is. A spec that runs into the terminator consumes the
      terminator too, and the loop would go on reading past it. */
  datatype Stepped = Stepped(text: seq<char>, pos: nat, next: nat) | Halted(fault: Fault)

  function Step(fmt: seq<char>, args: seq<Arg>, pos: nat, next: nat): (r: Stepped)
    requires pos < |fmt|
    ensures r.Stepped? ==> pos < r.pos <= |fmt|
  {
    if fmt[pos] != '%' then Stepped([fmt[pos]], pos + 1, next)
    else
      match ParseSpec(fmt, pos + 1, args, next)
      case NoArgument => Halted(MissingArgument)
      case Parsed(spec, p, n) =>
        if p >= |fmt| then Halted(PastTerminator)
        else
          match Convert(fmt[p], spec, args, n)
          case Stopped(f) => Halted(f)
          case Converted(t, n') => Stepped(t, p + 1, n')
  }

  /** The output of the format string from `pos` with the arguments from
      `next` on. */
  function Render(fmt: seq<char>, args: seq<Arg>, pos: nat, next: nat): Rendered
    decreases |fmt| - pos
  {
    if pos >= |fmt| then Text([])
    else
      match Step(fmt, args, pos, next)
      case Halted(f) => Failed(f)
      case Stepped(t, p, n) => Prepend(t, Render(fmt, args, p, n))
  }

  function Prepend(t: seq<char>, r: Rendered): Rendered
  {
    match r
    case Text(u) => Text(t + u)
    case Failed(f) => Failed(f)
  }

  /** Lines 284-285 as written: the `%d`/`%i` text goes through
      `_format_output` with `num_buffer` as its destination, so the
      caller's buffer keeps its contents while the index still moves past
      the text. */
  function SignedTargetAsWritten(s: seq<char>, maxSize: nat, index: nat, text: seq<char>): (seq<char>, nat)
    requires maxSize <= |s|
  {
    (s, index + |text|)
  }

  /** `snprintf(s, 2, "%d", 5)`: the output meant is `"5"`, which lands
      in the buffer; as written the buffer's first character is never
      set, and only the terminator lands, after it. */
  lemma SignedOutputLost(s: seq<char>)
    requires |s| >= 2 && s[0] != '5'
    ensures Render("%d", [Int(5)], 0, 0) == Text("5")
    ensures Terminate(PutAll(s, 2, 0, "5"), 2, 1)[..2] == "5\0"
    ensures var (kept, count) := SignedTargetAsWritten(s, 2, 0, "5");
      count == 1 && Terminate(kept, 2, count)[0] == s[0] != '5'
  {
    assert Digits(5, 10, false) == "5";
    assert ParseSpec("%d", 1, [Int(5)], 0) == Parsed(NoFlags, 1, 0);
    WrapFits(5, U32);
    assert Convert('d', NoFlags, [Int(5)], 0) == Converted("5", 1);
    assert Step("%d", [Int(5)], 0, 0) == Stepped("5", 2, 1);
  }

  /** A negative `*` width sets FLAG_LEFT and gives its magnitude as the
      width; the argument is consumed. */
  lemma StarWidthLeft(fmt: seq<char>, pos: nat, args: seq<Arg>, next: nat, spec: Spec, v: int)
    requires CharAt(fmt, pos) == '*' && IntAt(args, next) == Some(v) && -0xFFFF <= v < 0
    ensures var r := Width(fmt, pos, args, next, spec);
      r.Parsed? && r.spec.left && r.spec.width == -v && r.pos == pos + 1 && r.next == next + 1
  {
    WrapFits(v, U32);
  }

  /** A negative `*` precision is 0, with FLAG_PRECISION still set. */
  lemma StarPrecisionNegative(fmt: seq<char>, pos: nat, args: seq<Arg>, next: nat, spec: Spec, v: int)
    requires CharAt(fmt, pos) == '.' && CharAt(fmt, pos + 1) == '*' && IntAt(args, next) == Some(v)
    requires -0x8000_0000 <= v < 0
    ensures var r := Precision(fmt, pos, args, next, spec);
      r.Parsed? && r.spec.precise && r.spec.precision == 0 && r.pos == pos + 2 && r.next == next + 1
  {
    WrapFits(v, U32);
  }

  /** An unknown conversion character produces nothing and takes no
      argument. */
  lemma UnknownSkipped(c: char, spec: Spec, args: seq<Arg>, next: nat)
    requires c !in "diuoxXcspn%"
    ensures Convert(c, spec, args, next) == Converted([], next)
  {
  }
}
