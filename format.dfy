/** The legacy second stage's `vsnprintf` engine (`io.c`) step by step:
    `_buffer_mem` writes, `_format_output`'s padding loops, `_reverse`,
    `_ntoa`'s digit loop, the spec parser's cursor loops and
    `_vsnprintf`'s main loop, each proved to produce the text module
    `FormatText` describes. */
module Format {
  import opened Bytes
  import opened Wrappers
  import opened FormatText

  /** `_buffer_mem`: stores the character only when `index` is below
      `max_size`. */
  method BufferMem(buffer: array<char>, maxSize: nat, index: nat, ch: char)
    requires maxSize <= buffer.Length
    modifies buffer
    ensures buffer[..] == Put(old(buffer[..]), maxSize, index, ch)
  {
    if index < maxSize {
      buffer[index] := ch;
    }
  }

  /** The `write` callback `_vsnprintf` uses: `_buffer_mem`, or
      `_buffer_null` (nothing) when the buffer is NULL. */
  method Write(buffer: array?<char>, maxSize: nat, index: nat, ch: char)
    requires buffer != null ==> maxSize <= buffer.Length
    modifies buffer
    ensures buffer != null ==> buffer[..] == Put(old(buffer[..]), maxSize, index, ch)
  {
    if buffer != null {
      BufferMem(buffer, maxSize, index, ch);
    }
  }

  /** One more character written is the text grown by one. */
  lemma PutAllSnoc(s: seq<char>, maxSize: nat, index: nat, t: seq<char>, c: char)
    requires maxSize <= |s|
    ensures PutAll(s, maxSize, index, t + [c]) == Put(PutAll(s, maxSize, index, t), maxSize, index + |t|, c)
  {
    PutAllAppend(s, maxSize, index, t, [c]);
    var w := PutAll(s, maxSize, index, t);
    assert PutAll(w, maxSize, index + |t|, [c]) == PutAll(Put(w, maxSize, index + |t|, c), maxSize, index + |t| + 1, []);
  }

  /** The writes of `text` from `index` on, one `write` call per
      character, as `_format_output`'s loops over the output and the fill
      make them. */
  method WriteAll(buffer: array?<char>, maxSize: nat, index: nat, text: seq<char>) returns (end: nat)
    requires buffer != null ==> maxSize <= buffer.Length
    modifies buffer
    ensures end == index + |text|
    ensures buffer != null ==> buffer[..] == PutAll(old(buffer[..]), maxSize, index, text)
  {
    ghost var s0 := if buffer != null then buffer[..] else [];
    end := index;
    var i: nat := 0;
    while i < |text|
      invariant i <= |text| && end == index + i
      invariant buffer != null ==> buffer[..] == PutAll(s0, maxSize, index, text[..i])
    {
      Write(buffer, maxSize, end, text[i]);
      if buffer != null {
        assert text[..i + 1] == text[..i] + [text[i]];
        PutAllSnoc(s0, maxSize, index, text[..i], text[i]);
      }
      end := end + 1;
      i := i + 1;
    }
    assert text[..i] == text;
  }

  /** `_format_output`: with FLAG_LEFT the output and then the fill up to
      the width, otherwise the fill and then the output; returns the index
      after the last character. */
  method FormatOutput(buffer: array?<char>, maxSize: nat, index: nat, output: seq<char>, spec: Spec)
    returns (end: nat)
    requires buffer != null ==> maxSize <= buffer.Length
    modifies buffer
    ensures end == index + |Padded(output, spec)|
    ensures buffer != null ==> buffer[..] == PutAll(old(buffer[..]), maxSize, index, Padded(output, spec))
  {
    var fill := if spec.zero then '0' else ' ';
    var count: nat := if |output| < spec.width then spec.width - |output| else 0;
    var pad := Repeat(fill, count);
    var middle;
    if spec.left {
      middle := WriteAll(buffer, maxSize, index, output);
      end := WriteAll(buffer, maxSize, middle, pad);
      if buffer != null {
        PutAllAppend(old(buffer[..]), maxSize, index, output, pad);
      }
    } else {
      middle := WriteAll(buffer, maxSize, index, pad);
      end := WriteAll(buffer, maxSize, middle, output);
      if buffer != null {
        PutAllAppend(old(buffer[..]), maxSize, index, pad, output);
      }
    }
  }

  /** `s` back to front. */
  function Reversed(s: seq<char>): (r: seq<char>)
    ensures |r| == |s|
  {
    seq(|s|, k requires 0 <= k < |s| => s[|s| - 1 - k])
  }

  /** Reversing twice gives the text back. */
  lemma ReversedTwice(s: seq<char>)
    ensures Reversed(Reversed(s)) == s
  {
  }

  /** A character put in front comes out last. */
  lemma ReversedCons(c: char, t: seq<char>)
    ensures Reversed([c] + t) == Reversed(t) + [c]
  {
  }

  /** `_reverse`: swaps `buff[i]` and `buff[j]` with `i` counting up from
      0 and `j` down from `buff_size - 1` until they meet. `buff_size`
      must be at least 1: for 0, `j` would wrap to the largest `size_t`. */
  method Reverse(buff: array<char>, size: nat)
    requires 1 <= size <= buff.Length
    modifies buff
    ensures buff[..size] == Reversed(old(buff[..size]))
    ensures buff[size..] == old(buff[size..])
  {
    ghost var s := buff[..];
    var i: nat, j: nat := 0, size - 1;
    while i < j
      invariant i + j == size - 1 && i <= j + 1
      invariant forall k :: 0 <= k < i ==> buff[k] == s[size - 1 - k] && buff[size - 1 - k] == s[k]
      invariant forall k :: i <= k <= j ==> buff[k] == s[k]
      invariant forall k :: size <= k < buff.Length ==> buff[k] == s[k]
    {
      var c := buff[i];
      buff[i] := buff[j];
      buff[j] := c;
      i, j := i + 1, j - 1;
    }
    assert buff[..size] == Reversed(s[..size]);
    assert buff[size..] == s[size..];
  }

  /** One character appended to `num_buffer` at `index`: the buffer holds
      the text written so far back to front. */
  method Push(numBuffer: array<char>, index: nat, c: char, ghost tail: seq<char>) returns (next: nat)
    requires index < numBuffer.Length && numBuffer[..index] == Reversed(tail)
    modifies numBuffer
    ensures next == index + 1 && numBuffer[..next] == Reversed([c] + tail)
  {
    numBuffer[index] := c;
    next := index + 1;
    assert numBuffer[..next] == old(numBuffer[..index]) + [c];
    ReversedCons(c, tail);
  }

  /** `_ntoa`'s digit loop: the digits of `num`, least significant first
      (a do-while, so zero gives one digit). */
  method DigitLoop(num: nat, radix: nat, numBuffer: array<char>, hcase: bool) returns (index: nat)
    requires 2 <= radix <= 16 && |Digits(num, radix, hcase)| <= numBuffer.Length
    modifies numBuffer
    ensures index == |Digits(num, radix, hcase)|
    ensures numBuffer[..index] == Reversed(Digits(num, radix, hcase))
  {
    ghost var ds := Digits(num, radix, hcase);
    ghost var tail: seq<char> := [];
    index := 0;
    var n: nat := num;
    var more := true;
    while more
      invariant index == |tail| && (more ==> |tail| < |ds|) && (!more ==> tail == ds)
      invariant more ==> ds == Digits(n, radix, hcase) + tail
      invariant numBuffer[..index] == Reversed(tail)
      decreases if more then n + 1 else 0
    {
      var q;
      index, q := PushDigit(numBuffer, index, n, radix, hcase, tail);
      tail := [DigitChar(n % radix, hcase)] + tail;
      n := q;
      more := n > 0;
    }
  }

  /** One round of the digit loop: the digit `num % radix` from the
      alphabet, then `num / radix`. */
  method PushDigit(numBuffer: array<char>, index: nat, n: nat, radix: nat, hcase: bool, ghost tail: seq<char>)
    returns (next: nat, q: nat)
    requires 2 <= radix <= 16
    requires index < numBuffer.Length && numBuffer[..index] == Reversed(tail)
    modifies numBuffer
    ensures next == index + 1
    ensures numBuffer[..next] == Reversed([DigitChar(n % radix, hcase)] + tail)
    ensures q == n / radix && (n > 0 ==> q < n)
    ensures Digits(n, radix, hcase) + tail
      == (if q == 0 then [] else Digits(q, radix, hcase)) + ([DigitChar(n % radix, hcase)] + tail)
  {
    q := n / radix;
    var d := n % radix;
    PushStep(n, radix, hcase, tail);
    var c := Alphabet(hcase)[d];
    DigitTables(d, hcase);
    next := Push(numBuffer, index, c, tail);
  }

  /** What one round of the digit loop does to the digits still to come. */
  lemma PushStep(n: nat, radix: nat, hcase: bool, tail: seq<char>)
    requires 2 <= radix <= 16
    ensures n % radix < radix && (n > 0 ==> n / radix < n)
    ensures Digits(n, radix, hcase) + tail
      == (if n / radix == 0 then [] else Digits(n / radix, radix, hcase)) + ([DigitChar(n % radix, hcase)] + tail)
  {
    var q, d := n / radix, n % radix;
    DigitsStep(n, radix, hcase, q, d);
    assert Digits(n, radix, hcase) + tail
      == (if q == 0 then [] else Digits(q, radix, hcase)) + [DigitChar(d, hcase)] + tail;
  }

  /** One more copy is one more character in front. */
  lemma RepeatCons(c: char, n: nat)
    ensures Repeat(c, n + 1) == [c] + Repeat(c, n)
  {
  }

  /** `_ntoa`'s precision loop: with FLAG_PRECISION, zeros after the
      digits (before them once reversed) until `index` reaches the
      precision. */
  method ZeroLoop(numBuffer: array<char>, start: nat, spec: Spec, ghost ds: seq<char>) returns (index: nat)
    requires |ZerosText(|ds|, spec)| + |ds| <= numBuffer.Length
    requires start == |ds| && numBuffer[..start] == Reversed(ds)
    modifies numBuffer
    ensures index == |ZerosText(|ds|, spec)| + |ds|
    ensures numBuffer[..index] == Reversed(ZerosText(|ds|, spec) + ds)
  {
    index := start;
    ghost var tail := ds;
    if spec.precise {
      while index < spec.precision
        invariant |ds| <= index <= |ZerosText(|ds|, spec)| + |ds|
        invariant tail == Repeat('0', index - |ds|) + ds
        invariant numBuffer[..index] == Reversed(tail)
      {
        RepeatCons('0', index - |ds|);
        index := Push(numBuffer, index, '0', tail);
        tail := "0" + tail;
      }
    }
    assert tail == ZerosText(|ds|, spec) + ds;
  }

  /** `_ntoa`'s FLAG_HASH prefix, back to front: `x` or `X` in base 16,
      then `0` in a base divisible by 8. */
  method PushPrefix(numBuffer: array<char>, start: nat, radix: nat, spec: Spec, hcase: bool, ghost body: seq<char>)
    returns (index: nat)
    requires start + |PrefixText(radix, spec, hcase)| <= numBuffer.Length
    requires numBuffer[..start] == Reversed(body)
    modifies numBuffer
    ensures index == start + |PrefixText(radix, spec, hcase)|
    ensures numBuffer[..index] == Reversed(PrefixText(radix, spec, hcase) + body)
  {
    index := start;
    ghost var tail := body;
    if spec.hash {
      if radix == 16 {
        var c := if hcase then 'X' else 'x';
        index := Push(numBuffer, index, c, tail);
        tail := [c] + tail;
      }
      if radix % 8 == 0 {
        index := Push(numBuffer, index, '0', tail);
        tail := "0" + tail;
      }
    }
    assert tail == PrefixText(radix, spec, hcase) + body;
  }

  /** `_ntoa`'s sign: `-` for a negative number, else `+` with FLAG_SIGN,
      else a space with FLAG_SPACE. */
  method PushSign(numBuffer: array<char>, start: nat, negative: bool, spec: Spec, ghost body: seq<char>)
    returns (index: nat)
    requires start + |SignText(negative, spec)| <= numBuffer.Length
    requires numBuffer[..start] == Reversed(body)
    modifies numBuffer
    ensures index == start + |SignText(negative, spec)|
    ensures numBuffer[..index] == Reversed(SignText(negative, spec) + body)
  {
    index := start;
    if negative {
      index := Push(numBuffer, index, '-', body);
    } else if spec.sign {
      index := Push(numBuffer, index, '+', body);
    } else if spec.space {
      index := Push(numBuffer, index, ' ', body);
    } else {
      assert SignText(negative, spec) + body == body;
    }
  }

  /** `_ntoa`: the digits back to front, then the zeros up to the
      precision (FLAG_PRECISION), the FLAG_HASH prefix back to front, and
      the sign, and finally `_reverse` over the whole. The text must fit
      the buffer; `num_buffer` has 32 characters, and a precision above
      that overruns it. */
  method Ntoa(num: nat, negative: bool, radix: nat, numBuffer: array<char>, spec: Spec, hcase: bool)
    returns (size: nat)
    requires 2 <= radix <= 16
    requires |NtoaText(num, negative, radix, spec, hcase)| <= numBuffer.Length
    modifies numBuffer
    ensures size == |NtoaText(num, negative, radix, spec, hcase)|
    ensures numBuffer[..size] == NtoaText(num, negative, radix, spec, hcase)
  {
    ghost var ds := Digits(num, radix, hcase);
    ghost var zeros, prefix, sign := ZerosText(|ds|, spec), PrefixText(radix, spec, hcase), SignText(negative, spec);
    ghost var text := NtoaText(num, negative, radix, spec, hcase);
    assert text == sign + (prefix + (zeros + ds));
    var index := DigitLoop(num, radix, numBuffer, hcase);
    index := ZeroLoop(numBuffer, index, spec, ds);
    index := PushPrefix(numBuffer, index, radix, spec, hcase, zeros + ds);
    index := PushSign(numBuffer, index, negative, spec, prefix + (zeros + ds));
    Reverse(numBuffer, index);
    ReversedTwice(text);
    size := index;
  }

  // Parsing a spec

  /** The flag loop: `-`, `+`, space, `#` and `0` each set a flag and
      advance; any other character ends the loop. */
  method ParseFlags(fmt: seq<char>, pos: nat) returns (spec: Spec, p: nat)
    requires pos <= |fmt|
    ensures (spec, p) == Flags(fmt, pos, NoFlags)
  {
    spec, p := NoFlags, pos;
    var flagsLoop := true;
    while flagsLoop
      invariant p <= |fmt|
      invariant flagsLoop ==> Flags(fmt, pos, NoFlags) == Flags(fmt, p, spec)
      invariant !flagsLoop ==> Flags(fmt, pos, NoFlags) == (spec, p)
      decreases |fmt| - p, if flagsLoop then 1 else 0
    {
      match CharAt(fmt, p)
      case '-' => spec, p := spec.(left := true), p + 1;
      case '+' => spec, p := spec.(sign := true), p + 1;
      case ' ' => spec, p := spec.(space := true), p + 1;
      case '#' => spec, p := spec.(hash := true), p + 1;
      case '0' => spec, p := spec.(zero := true), p + 1;
      case _ => flagsLoop := false;
    }
  }

  /** A width or precision digit loop: `v = v * 10 + digit` in 16 bits
      while the character is a decimal digit. */
  method ParseDigits(fmt: seq<char>, pos: nat) returns (v: word, p: nat)
    requires pos <= |fmt|
    ensures (v, p) == DigitRun(fmt, pos, 0)
  {
    v, p := 0, pos;
    while IsDigit(CharAt(fmt, p))
      invariant p <= |fmt|
      invariant DigitRun(fmt, pos, 0) == DigitRun(fmt, p, v)
      decreases |fmt| - p
    {
      v := (v * 10 + (fmt[p] as nat - '0' as nat)) % U16;
      p := p + 1;
    }
  }

  /** The width: a `*` argument (negative: FLAG_LEFT and negated), or a
      digit run. */
  method ParseWidth(fmt: seq<char>, pos: nat, args: seq<Arg>, next: nat, spec: Spec) returns (r: Parsed)
    requires pos <= |fmt|
    ensures r == Width(fmt, pos, args, next, spec)
    ensures r.Parsed? ==> r.pos <= |fmt|
  {
    if CharAt(fmt, pos) == '*' {
      if next < |args| && args[next].Int? {
        var w := IntArg(args[next].value);
        if w < 0 {
          r := Parsed(spec.(left := true, width := (-w) % U16), pos + 1, next + 1);
        } else {
          r := Parsed(spec.(width := w % U16), pos + 1, next + 1);
        }
      } else {
        r := NoArgument;
      }
    } else {
      var w, end := ParseDigits(fmt, pos);
      r := Parsed(spec.(width := w), end, next);
    }
  }

  /** The precision after a `.`: a `*` argument (negative: 0), or a digit
      run; the `.` sets FLAG_PRECISION. */
  method ParsePrecision(fmt: seq<char>, pos: nat, args: seq<Arg>, next: nat, spec: Spec) returns (r: Parsed)
    requires pos <= |fmt|
    ensures r == Precision(fmt, pos, args, next, spec)
    ensures r.Parsed? ==> r.pos <= |fmt| + 1
  {
    if CharAt(fmt, pos) != '.' {
      r := Parsed(spec, pos, next);
    } else if CharAt(fmt, pos + 1) == '*' {
      if next < |args| && args[next].Int? {
        var p := IntArg(args[next].value);
        r := Parsed(spec.(precise := true, precision := if p < 0 then 0 else p % U16), pos + 2, next + 1);
      } else {
        r := NoArgument;
      }
    } else {
      var p, end := ParseDigits(fmt, pos + 1);
      r := Parsed(spec.(precise := true, precision := p), end, next);
    }
  }

  /** Flags, width, precision and length, from just after the `%`. */
  method ParseSpecAt(fmt: seq<char>, pos: nat, args: seq<Arg>, next: nat) returns (r: Parsed)
    requires pos <= |fmt|
    ensures r == ParseSpec(fmt, pos, args, next)
  {
    var flagged, p1 := ParseFlags(fmt, pos);
    r := ParseWidth(fmt, p1, args, next, flagged);
    if r.Parsed? {
      if r.pos < |fmt| {
        r := ParsePrecision(fmt, r.pos, args, r.next, r.spec);
      } else {
        r := Parsed(r.spec, r.pos, r.next);
      }
      if r.Parsed? {
        var (len, p4) := LengthOf(fmt, r.pos);
        r := Parsed(r.spec.(length := len), p4, r.next);
      }
    }
  }

  // Conversions and the main loop

  /** A number conversion: `_ntoa` into `num_buffer`, then
      `_format_output` from it into the caller's buffer. A text longer
      than `num_buffer` stops with the overrun instead. */
  method NumberOut(buffer: array?<char>, maxSize: nat, index: nat, num: nat, negative: bool, radix: nat,
                   spec: Spec, hcase: bool, numBuffer: array<char>)
    returns (fault: Option<Fault>, end: nat)
    requires 2 <= radix <= 16
    requires buffer != null ==> maxSize <= buffer.Length
    requires numBuffer.Length == NumBufferSize && buffer != numBuffer
    modifies buffer, numBuffer
    ensures var n := Number(num, negative, radix, spec, hcase);
      (n.Failed? ==> fault == Some(n.fault))
      && (n.Text? ==> fault == None && end == index + |n.chars|)
      && (n.Text? && buffer != null ==> buffer[..] == PutAll(old(buffer[..]), maxSize, index, n.chars))
  {
    if |NtoaText(num, negative, radix, spec, hcase)| > NumBufferSize {
      return Some(NumBufferOverrun), index;
    }
    var size := Ntoa(num, negative, radix, numBuffer, spec, hcase);
    end := FormatOutput(buffer, maxSize, index, numBuffer[..size], spec);
    fault := None;
  }

  /** The conversion character's switch: which argument it takes, what
      it hands `_format_output`, and the next argument. */
  method Conversion(buffer: array?<char>, maxSize: nat, index: nat, c: char, spec: Spec, args: seq<Arg>, next: nat,
                    numBuffer: array<char>)
    returns (fault: Option<Fault>, end: nat, next': nat)
    requires buffer != null ==> maxSize <= buffer.Length
    requires numBuffer.Length == NumBufferSize && buffer != numBuffer
    modifies buffer, numBuffer
    ensures var conv := Convert(c, spec, args, next);
      (conv.Stopped? ==> fault == Some(conv.fault))
      && (conv.Converted? ==> fault == None && next' == conv.next && end == index + |conv.text|)
      && (conv.Converted? && buffer != null ==> buffer[..] == PutAll(old(buffer[..]), maxSize, index, conv.text))
  {
    next' := next + 1;
    end := index;
    fault := None;
    if c in "diuoxXp" {
      fault, end, next' := NumericConversion(buffer, maxSize, index, c, spec, args, next, numBuffer);
    } else if c == 'c' {
      if spec.length == Long {
        end := FormatOutput(buffer, maxSize, index, "\0", spec);
        next' := next;
      } else if next < |args| && args[next].Int? {
        end := FormatOutput(buffer, maxSize, index, [(args[next].value % U8) as char], spec);
      } else {
        fault, next' := Some(MissingArgument), next;
      }
    } else if c == 's' {
      if next < |args| && args[next].Str? {
        if spec.length != Long {
          var n := Strlen(args[next].chars);
          end := FormatOutput(buffer, maxSize, index, args[next].chars[..n], spec);
        }
      } else {
        fault, next' := Some(MissingArgument), next;
      }
    } else if c == 'n' {
      if next >= |args| {
        fault, next' := Some(MissingArgument), next;
      }
    } else if c == '%' {
      end := FormatOutput(buffer, maxSize, index, "%", spec);
      next' := next;
    } else {
      next' := next;
    }
  }

  /** The number conversions `d`, `i`, `u`, `o`, `x`, `X` and `p`: the
      argument at its length, through `_ntoa` and `_format_output`. */
  method NumericConversion(buffer: array?<char>, maxSize: nat, index: nat, c: char, spec: Spec, args: seq<Arg>, next: nat,
                           numBuffer: array<char>)
    returns (fault: Option<Fault>, end: nat, next': nat)
    requires c in "diuoxXp"
    requires buffer != null ==> maxSize <= buffer.Length
    requires numBuffer.Length == NumBufferSize && buffer != numBuffer
    modifies buffer, numBuffer
    ensures var conv := Convert(c, spec, args, next);
      (conv.Stopped? ==> fault == Some(conv.fault))
      && (conv.Converted? ==> fault == None && next' == conv.next && end == index + |conv.text|)
      && (conv.Converted? && buffer != null ==> buffer[..] == PutAll(old(buffer[..]), maxSize, index, conv.text))
  {
    if !(next < |args| && args[next].Int?) {
      return Some(MissingArgument), index, next;
    }
    next' := next + 1;
    var v := args[next].value;
    if c == 'd' || c == 'i' {
      var x := SignedValue(v, spec.length);
      assert Convert(c, spec, args, next) == Attach(Number(Magnitude(x), x < 0, 10, spec, false), next');
      fault, end := NumberOut(buffer, maxSize, index, Magnitude(x), x < 0, 10, spec, false, numBuffer);
    } else if c == 'p' {
      assert Convert(c, spec, args, next) == Attach(Number(v % U32, false, 16, spec.(hash := true), false), next');
      fault, end := NumberOut(buffer, maxSize, index, v % U32, false, 16, spec.(hash := true), false, numBuffer);
    } else {
      var radix := if c == 'u' then 10 else if c == 'o' then 8 else 16;
      assert Convert(c, spec, args, next) == Attach(Number(UnsignedSeen(v, spec.length), false, radix, spec, c == 'X'), next');
      fault, end := NumberOut(buffer, maxSize, index, UnsignedSeen(v, spec.length), false, radix, spec, c == 'X', numBuffer);
    }
  }

  /** `strlen` on a string argument: the characters before its
      terminator. */
  method Strlen(s: seq<char>) returns (n: nat)
    ensures n <= |s| && s[..n] == UntilNul(s)
  {
    n := 0;
    while n < |s| && s[n] != '\0'
      invariant n <= |s| && forall i :: 0 <= i < n ==> s[i] != '\0'
    {
      n := n + 1;
    }
    FirstNul(s, n);
  }

  /** The string before the first terminator is `UntilNul`. */
  lemma FirstNul(s: seq<char>, n: nat)
    requires n <= |s| && (forall i :: 0 <= i < n ==> s[i] != '\0') && (n < |s| ==> s[n] == '\0')
    ensures s[..n] == UntilNul(s)
  {
  }

  /** What `_vsnprintf` returns: the length of the whole output, or the
      fault that leaves its behaviour undefined. */
  datatype Outcome = Written(count: nat) | Faulted(fault: Fault)

  /** Writing a text in one piece or in two is the same. */
  lemma PrependPrepend(t: seq<char>, u: seq<char>, r: Rendered)
    ensures Prepend(t, Prepend(u, r)) == Prepend(t + u, r)
  {
  }

  /** `_vsnprintf` with `_buffer_mem` (or `_buffer_null` for a NULL
      buffer): each character of the format is copied, each spec is
      parsed and converted, and the terminator goes at the end of the
      output or in the buffer's last slot. The count returned is the
      length of the whole output, however much of it fit. */
  method VSnprintf(buffer: array?<char>, maxSize: nat, fmt: seq<char>, args: seq<Arg>) returns (r: Outcome)
    requires buffer != null ==> maxSize <= buffer.Length
    requires '\0' !in fmt
    modifies buffer
    ensures var out := Render(fmt, args, 0, 0);
      (out.Failed? ==> r == Faulted(out.fault))
      && (out.Text? ==> r == Written(|out.chars|))
      && (out.Text? && buffer != null ==> buffer[..] == Terminate(PutAll(old(buffer[..]), maxSize, 0, out.chars), maxSize, |out.chars|))
  {
    var numBuffer := new char[NumBufferSize];
    ghost var s0 := if buffer != null then buffer[..] else [];
    ghost var done: seq<char> := [];
    var index: nat := 0;
    var pos: nat := 0;
    var next: nat := 0;
    while pos < |fmt|
      invariant pos <= |fmt| && index == |done|
      invariant Render(fmt, args, 0, 0) == Prepend(done, Render(fmt, args, pos, next))
      invariant buffer != null ==> buffer[..] == PutAll(s0, maxSize, 0, done)
      decreases |fmt| - pos
    {
      var fault, end, pos', next';
      fault, end, pos', next', done := Turn(buffer, maxSize, index, fmt, pos, args, next, numBuffer, s0, done);
      if fault.Some? {
        return Faulted(fault.value);
      }
      index, pos, next := end, pos', next';
    }
    assert Render(fmt, args, pos, next) == Text([]) && done + [] == done;
    // With `max_size` zero, `max_size - 1` wraps to the largest 32-bit
    // `size_t`, which `_buffer_mem` then refuses.
    var last: nat := if index < maxSize then index else if maxSize > 0 then maxSize - 1 else U32 - 1;
    Write(buffer, maxSize, last, '\0');
    r := Written(index);
  }

  /** One turn of `_vsnprintf`'s loop, stated on what the whole call
      renders: `done` is the text written so far from the buffer's
      contents `s0`, and the turn either fails as the rest of the format
      does or extends `done` with its own text. */
  method Turn(buffer: array?<char>, maxSize: nat, index: nat, fmt: seq<char>, pos: nat, args: seq<Arg>, next: nat,
              numBuffer: array<char>, ghost s0: seq<char>, ghost done: seq<char>)
    returns (fault: Option<Fault>, end: nat, pos': nat, next': nat, ghost done': seq<char>)
    requires pos < |fmt| && index == |done|
    requires buffer != null ==> maxSize <= buffer.Length && maxSize <= |s0| && buffer[..] == PutAll(s0, maxSize, 0, done)
    requires numBuffer.Length == NumBufferSize && buffer != numBuffer
    modifies buffer, numBuffer
    ensures fault.Some? ==> Prepend(done, Render(fmt, args, pos, next)) == Failed(fault.value)
    ensures fault.None? ==> (pos < pos' <= |fmt| && end == |done'|
      && Prepend(done, Render(fmt, args, pos, next)) == Prepend(done', Render(fmt, args, pos', next'))
      && (buffer != null ==> buffer[..] == PutAll(s0, maxSize, 0, done')))
  {
    ghost var st := Step(fmt, args, pos, next);
    fault, end, pos', next' := StepAt(buffer, maxSize, index, fmt, pos, args, next, numBuffer);
    done' := done;
    if fault.Some? {
      return;
    }
    if buffer != null {
      PutAllAppend(s0, maxSize, 0, done, st.text);
    }
    PrependPrepend(done, st.text, Render(fmt, args, pos', next'));
    done' := done + st.text;
  }

  /** One round of `_vsnprintf`'s loop: a plain character copied, or a
      spec parsed and converted. */
  method StepAt(buffer: array?<char>, maxSize: nat, index: nat, fmt: seq<char>, pos: nat, args: seq<Arg>, next: nat,
                numBuffer: array<char>)
    returns (fault: Option<Fault>, end: nat, pos': nat, next': nat)
    requires pos < |fmt|
    requires buffer != null ==> maxSize <= buffer.Length
    requires numBuffer.Length == NumBufferSize && buffer != numBuffer
    modifies buffer, numBuffer
    ensures var st := Step(fmt, args, pos, next);
      (st.Halted? ==> fault == Some(st.fault))
      && (st.Stepped? ==> fault == None && pos' == st.pos && next' == st.next && end == index + |st.text|)
      && (st.Stepped? && buffer != null ==> buffer[..] == PutAll(old(buffer[..]), maxSize, index, st.text))
  {
    if fmt[pos] != '%' {
      Write(buffer, maxSize, index, fmt[pos]);
      return None, index + 1, pos + 1, next;
    }
    var parsed := ParseSpecAt(fmt, pos + 1, args, next);
    if parsed.NoArgument? {
      return Some(MissingArgument), index, pos, next;
    }
    if parsed.pos >= |fmt| {
      return Some(PastTerminator), index, pos, next;
    }
    fault, end, next' := Conversion(buffer, maxSize, index, fmt[parsed.pos], parsed.spec, args, parsed.next, numBuffer);
    pos' := parsed.pos + 1;
  }
}
