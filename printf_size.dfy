/** `printf_size` and `printf_size_info` (stdio/printf_size.c): the `%k`-style
    conversion that prints a number scaled down to a unit of magnitude,
    "1.500K" or "3.000m", and the hook that tells the formatted-output engine
    which argument it consumes. */
module PrintfSize {
  import opened Sink

  /** The fields of `struct printf_info` that `printf_size` reads or copies
      into the request it hands to the fixed-point renderer. */
  datatype PrintfInfo = PrintfInfo(
    prec: int,          // negative: no precision was given
    width: int,
    spec: char,         // the conversion specifier
    isLongDouble: bool,
    isShort: bool,
    isLong: bool,
    alt: bool,
    space: bool,
    left: bool,
    showsign: bool,
    group: bool,
    extra: int,
    pad: char)

  /** The argument as `__isnan` and `__isinf` classify it; a finite value is
      kept as an exact real. */
  datatype FloatArg = Finite(value: real) | NaN | Inf(negative: bool)

  /** The two unit tables: lower-case letters with divisor 1024, upper-case
      letters with divisor 1000. Entry 0 is the blank printed for a value that
      was not scaled. */
  datatype UnitSystem = Binary | Decimal {
    function Units(): (r: seq<char>)
      ensures |r| == 9 && r[0] == ' '
      ensures forall i :: 0 < i < |r| ==> (IsUpper(r[i]) <==> this == Decimal)
    {
      match this
      case Binary => " kmgtpezy"
      case Decimal => " KMGTPEZY"
    }

    function Divisor(): (r: nat)
      ensures r > 1
      ensures r == 1000 <==> this == Decimal
    {
      match this
      case Binary => 1024
      case Decimal => 1000
    }
  }

  /** `isupper` in the C locale. */
  predicate IsUpper(c: char) {
    'A' <= c <= 'Z'
  }

  /** The table and divisor chosen by the case of the conversion specifier:
      the unit letters have the case of the specifier, and upper case means
      powers of 1000. */
  function SystemOf(spec: char): (r: UnitSystem)
    ensures r.Divisor() == if IsUpper(spec) then 1000 else 1024
    ensures forall i :: 0 < i < |r.Units()| ==> (IsUpper(r.Units()[i]) <==> IsUpper(spec))
  {
    if IsUpper(spec) then Decimal else Binary
  }

  // ---------------------------------------------------------------------
  // The fixed-point renderer `__printf_fp`, which this model does not
  // implement: a parameter that, given the scaled value and the request
  // built for it, yields the text it writes or a failure code.

  type FailureCode = c: int | c <= 0

  datatype Rendered = Digits(text: seq<char>) | RenderFailed(code: FailureCode)

  type Renderer = (real, PrintfInfo) -> Rendered

  /** What `__printf_fp` does with the `width` of its request: the text it
      prints is never narrower than that width. */
  ghost predicate PadsToRequest(render: Renderer) {
    forall v: real, r: PrintfInfo :: render(v, r).Digits? ==> |render(v, r).text| >= r.width
  }

  // ---------------------------------------------------------------------
  // Scaling.

  /** A scaled value and the index of its unit in the table (the offset of
      the `tag` pointer). */
  datatype Scaled = Scaled(value: real, tag: nat)

  function Pow(b: real, n: nat): real {
    if n == 0 then 1.0 else b * Pow(b, n - 1)
  }

  /** `x` divided `n` times by the divisor of `sys`. */
  function Shrink(x: real, sys: UnitSystem, n: nat): real {
    if n == 0 then x else Shrink(x, sys, n - 1) / sys.Divisor() as real
  }

  /** What the scaling loop yields when it starts from `v` at unit `tag`:
      divide while the value is at least the divisor and the table has an
      entry after the current one. */
  function ScaleFrom(v: real, sys: UnitSystem, tag: nat): (r: Scaled)
    requires tag < |sys.Units()|
    ensures tag <= r.tag < |sys.Units()|
    decreases |sys.Units()| - tag
  {
    var d := sys.Divisor() as real;
    if v >= d && tag + 1 < |sys.Units()| then ScaleFrom(v / d, sys, tag + 1)
    else Scaled(v, tag)
  }

  /** The value and unit index `printf_size` prints a finite `x` with. */
  function Scale(x: real, sys: UnitSystem): (r: Scaled)
    ensures r.tag < |sys.Units()|
  {
    ScaleFrom(x, sys, 0)
  }

  /** The scaling loop of `printf_size`: `fpnum` is divided in place by the
      divisor and `tag` advanced through the table until the value is below
      the divisor or `tag[1]` is the terminating NUL of the table. */
  method ScaleDown(x: real, sys: UnitSystem) returns (v: real, tag: nat)
    ensures Scaled(v, tag) == Scale(x, sys)
    ensures tag < |sys.Units()|
    ensures v == Shrink(x, sys, tag)
    ensures v < sys.Divisor() as real || tag == |sys.Units()| - 1
  {
    var units := sys.Units();
    var divisor := sys.Divisor() as real;
    v, tag := x, 0;
    while v >= divisor && tag + 1 < |units|
      invariant tag < |units|
      invariant v == Shrink(x, sys, tag)
      invariant ScaleFrom(v, sys, tag) == Scale(x, sys)
      decreases |units| - tag
    {
      v := v / divisor;
      tag := tag + 1;
    }
  }

  // ---------------------------------------------------------------------
  // The text of the field.

  /** The sign written before "nan" or "inf": minus, else a forced plus,
      else a forced blank, else nothing. */
  function SignOf(info: PrintfInfo, negative: bool): (r: string)
    ensures |r| == if negative || info.showsign || info.space then 1 else 0
    ensures '-' in r <==> negative
  {
    if negative then "-"
    else if info.showsign then "+"
    else if info.space then " "
    else ""
  }

  /** The local `width` of the special-value path: the larger of precision
      and width, less one column for a sign and three for the tag. */
  function SpecialPad(info: PrintfInfo, negative: bool): (r: int)
    ensures var filled := r + |SignOf(info, negative)| + 3;
      filled >= info.prec && filled >= info.width && (filled == info.prec || filled == info.width)
  {
    var w := if info.prec > info.width then info.prec else info.width;
    var w' := if negative || info.showsign || info.space then w - 1 else w;
    w' - 3
  }

  /** The special-value field: blank padding before the sign when
      right-justified, the sign, "nan" or "inf", blank padding after it when
      left-justified. */
  function SpecialField(info: PrintfInfo, negative: bool, special: string): (r: string)
    requires |special| == 3
    ensures |r| >= info.width && |r| >= info.prec && |r| >= |SignOf(info, negative)| + |special|
  {
    var pad := Repeat(' ', SpecialPad(info, negative));
    (if info.left then [] else pad) + SignOf(info, negative) + special + (if info.left then pad else [])
  }

  /** Left-justified with a blank pad: `printf_size` pads after the unit
      itself instead of letting the renderer pad. */
  predicate PadsAfterUnit(info: PrintfInfo) {
    info.left && info.pad == ' '
  }

  /** `fp_info`: the request handed to `__printf_fp`. */
  function FixedRequest(info: PrintfInfo): (r: PrintfInfo)
    ensures r.spec == 'f'
    ensures info.prec < 0 ==> r.prec == 3
    ensures info.prec >= 0 ==> r.prec == info.prec
    ensures r.width == if PadsAfterUnit(info) then 0 else info.width - 1
    ensures r.(spec := info.spec, prec := info.prec, width := info.width) == info
  {
    info.(spec := 'f', prec := if info.prec < 0 then 3 else info.prec,
          width := if PadsAfterUnit(info) then 0 else info.width - 1)
  }

  /** What a call produces if every write succeeds: the text written (and
      its length returned), or a failure code of the renderer, returned with
      nothing written by this call. */
  datatype Outcome = Emit(text: string) | Fail(code: int)

  /** The blanks written after the unit when `printf_size` pads after the
      unit itself: up to the width, counting the renderer's text `s` and the
      unit. */
  function UnitPad(info: PrintfInfo, s: string): (r: string)
    ensures forall i :: 0 <= i < |r| ==> r[i] == ' '
    ensures PadsAfterUnit(info) && |s| + 1 < info.width ==> |s| + 1 + |r| == info.width
    ensures !(PadsAfterUnit(info) && |s| + 1 < info.width) ==> r == []
  {
    if PadsAfterUnit(info) then Repeat(' ', info.width - (|s| + 1)) else []
  }

  /** The field for a finite value scaled to `v` with unit character `unit`:
      nothing follows a renderer result that is not positive. */
  function NormalField(info: PrintfInfo, v: real, unit: char, render: Renderer): (r: Outcome)
    ensures match render(v, FixedRequest(info))
      case RenderFailed(code) => r == Fail(code)
      case Digits(s) =>
        && r.Emit?
        && (r.text == [] <==> s == [])
        && (s != [] ==> |r.text| > |s| && r.text[..|s| + 1] == s + [unit])
        && (s != [] && PadsAfterUnit(info) ==> |r.text| >= info.width)
  {
    match render(v, FixedRequest(info))
    case RenderFailed(code) => Fail(code)
    case Digits(s) => if |s| == 0 then Emit([]) else Emit(s + [unit] + UnitPad(info, s))
  }

  /** The field `printf_size` writes for `arg`. */
  function SizeField(info: PrintfInfo, arg: FloatArg, render: Renderer): (r: Outcome)
    ensures r.Fail? ==> arg.Finite?
    ensures !arg.Finite? ==> r.Emit? && |r.text| >= info.width
  {
    var sys := SystemOf(info.spec);
    match arg
    case NaN => Emit(SpecialField(info, false, "nan"))
    case Inf(negative) => Emit(SpecialField(info, negative, "inf"))
    case Finite(x) =>
      var sc := Scale(x, sys);
      NormalField(info, sc.value, sys.Units()[sc.tag], render)
  }

  /** How a call that should produce `o` left a stream of capacity `limit`
      that held `before`: when the field fits, all of it was appended and its
      length returned; otherwise a write failed, -1 was returned and what was
      appended is a proper prefix of the field; a renderer failure code is
      returned with nothing written. */
  ghost predicate Delivered(before: string, after: string, limit: nat, o: Outcome, done: int) {
    match o
    case Fail(code) => done == code && after == before
    case Emit(t) => Wrote(before, after, limit, t, done)
  }

  /** `w` is the piece of `field` at offset `n`. */
  ghost predicate Piece(field: string, n: nat, w: string) {
    n + |w| <= |field| && field[n..n + |w|] == w
  }

  /** The stream holds what it held before the field was started followed
      by the first `n` characters of the field. */
  ghost predicate Sent(before: string, after: string, field: string, n: nat) {
    n <= |field| && after == before + field[..n]
  }

  /** Writing the piece at offset `n` once the first `n` characters of the
      field went out leaves the first `n + |w|` out. */
  lemma Advance(before: string, field: string, n: nat, w: string, after: string)
    requires Piece(field, n, w) && Sent(before, after, field, n)
    ensures Sent(before, after + w, field, n + |w|)
  {
    assert field[..n + |w|] == field[..n] + field[n..n + |w|];
  }

  /** A write of the piece at offset `n` that failed, leaving at most a
      proper prefix of it appended to `mid`: the field does not fit, and the
      stream holds a proper prefix of it. */
  lemma Stopped(before: string, field: string, n: nat, w: string, limit: nat, mid: string, after: string)
    requires Piece(field, n, w) && Sent(before, mid, field, n)
    requires mid <= after < mid + w
    requires |mid| + |w| > limit
    ensures Wrote(before, after, limit, field, -1)
  {
    Advance(before, field, n, w, mid);
    assert (before + field)[..|before| + n + |w|] == mid + w;
    assert after[..|before|] == mid[..|before|] == before;
  }

  /** The same for a write that appends nothing when it fails. */
  lemma StoppedAtomic(before: string, field: string, n: nat, w: string, limit: nat, after: string)
    requires Piece(field, n, w) && Sent(before, after, field, n) && |w| > 0
    requires |after| + |w| > limit
    ensures Wrote(before, after, limit, field, -1)
  {
    assert (after + w)[..|after|] == after;
    Stopped(before, field, n, w, limit, after, after);
  }

  /** All of the field went out. */
  lemma Completed(before: string, field: string, limit: nat, after: string)
    requires Sent(before, after, field, |field|) && |after| <= limit
    ensures Wrote(before, after, limit, field, |field|)
  {
    assert field[..|field|] == field;
  }

  /** Where the pieces of the special-value field sit, with `width` the
      local pad count: the leading blanks, the sign character if there is
      one, the three letters, the trailing blanks. */
  lemma SpecialLayout(info: PrintfInfo, negative: bool, special: string, width: int, p: nat, q: nat)
    requires |special| == 3 && width == SpecialPad(info, negative)
    requires p == if !info.left && width > 0 then width else 0
    requires q == if negative || info.showsign || info.space then p + 1 else p
    ensures !info.left && width > 0 ==> Piece(SpecialField(info, negative, special), 0, Repeat(' ', width))
    ensures negative || info.showsign || info.space ==>
      Piece(SpecialField(info, negative, special), p, [if negative then '-' else if info.showsign then '+' else ' '])
    ensures Piece(SpecialField(info, negative, special), q, special)
    ensures info.left && width > 0 ==> Piece(SpecialField(info, negative, special), q + 3, Repeat(' ', width))
    ensures |SpecialField(info, negative, special)| == if info.left && width > 0 then q + 3 + width else q + 3
  {
    var pad := Repeat(' ', width);
    var pre := if info.left then [] else pad;
    var sign := SignOf(info, negative);
    var post := if info.left then pad else [];
    var f := pre + sign + special + post;
    assert f[0..|pre|] == pre;
    assert f[|pre|..|pre| + |sign|] == sign;
    assert f[|pre| + |sign|..|pre| + |sign| + 3] == special;
    assert f[|pre| + |sign| + 3..|f|] == post;
  }

  /** Where the pieces of a finite value's field sit: the renderer's text,
      the unit, the blanks after it. */
  lemma NormalLayout(info: PrintfInfo, s: string, unit: char)
    ensures var f := s + [unit] + UnitPad(info, s);
      && Piece(f, 0, s)
      && Piece(f, |s|, [unit])
      && Piece(f, |s| + 1, UnitPad(info, s))
      && |f| == |s| + 1 + |UnitPad(info, s)|
  {
    var f := s + [unit] + UnitPad(info, s);
    assert f[0..|s|] == s;
    assert f[|s|..|s| + 1] == [unit];
    assert f[|s| + 1..|f|] == UnitPad(info, s);
  }

  // ---------------------------------------------------------------------
  // The operations.

  /** `__printf_fp` seen from `printf_size`: the renderer's text is written
      as one block; a write failure gives -1. */
  method PrintfFp(fp: Stream, fpInfo: PrintfInfo, v: real, render: Renderer) returns (done: int)
    requires fp.Valid()
    modifies fp
    ensures fp.Valid()
    ensures match render(v, fpInfo)
      case RenderFailed(code) => done == code && fp.out == old(fp.out)
      case Digits(s) =>
        if |old(fp.out)| + |s| <= fp.limit then done == |s| && fp.out == old(fp.out) + s
        else done == -1 && fp.out == old(fp.out)
  {
    match render(v, fpInfo)
    case RenderFailed(code) =>
      done := code;
    case Digits(s) =>
      var ok := fp.Write(s);
      done := if ok then |s| else -1;
  }

  /** `PRINT` for a length of at most 20: the characters go out one
      `outchar` at a time, and the first that fails ends the output. */
  method Print(fp: Stream, s: string) returns (ok: bool)
    requires fp.Valid()
    modifies fp
    ensures fp.Valid()
    ensures ok <==> |old(fp.out)| + |s| <= fp.limit
    ensures ok ==> fp.out == old(fp.out) + s
    ensures !ok ==> old(fp.out) <= fp.out < old(fp.out) + s
  {
    ghost var before := fp.out;
    var i := 0;
    while i < |s|
      invariant 0 <= i <= |s|
      invariant fp.Valid()
      invariant fp.out == before + s[..i]
    {
      ok := fp.PutChar(s[i]);
      if !ok {
        assert (before + s)[..|before| + i] == fp.out;
        return;
      }
      assert s[..i + 1] == s[..i] + [s[i]];
      i := i + 1;
    }
    assert s[..i] == s;
    ok := true;
  }

  /** `outchar` writing the character of `field` at offset `n` once the
      first `n` went out: on success the first `n + 1` are out; on failure
      nothing is appended and the field is reported as not delivered. */
  method OutChar(fp: Stream, c: char, ghost before: string, ghost field: string, ghost n: nat)
    returns (ok: bool)
    requires fp.Valid()
    requires Piece(field, n, [c]) && Sent(before, fp.out, field, n)
    modifies fp
    ensures fp.Valid()
    ensures ok <==> |old(fp.out)| < fp.limit
    ensures ok ==> Sent(before, fp.out, field, n + 1)
    ensures !ok ==> fp.out == old(fp.out) && Wrote(before, fp.out, fp.limit, field, -1)
  {
    ok := fp.PutChar(c);
    if !ok {
      StoppedAtomic(before, field, n, [c], fp.limit, fp.out);
      return;
    }
    Advance(before, field, n, [c], old(fp.out));
  }

  /** `PADN`: `len` copies of `ch`, the piece of `field` at offset `n`. */
  method PadN(fp: Stream, ch: char, len: nat, ghost before: string, ghost field: string, ghost n: nat)
    returns (ok: bool)
    requires fp.Valid() && len > 0
    requires Piece(field, n, Repeat(ch, len)) && Sent(before, fp.out, field, n)
    modifies fp
    ensures fp.Valid()
    ensures ok <==> |old(fp.out)| + len <= fp.limit
    ensures ok ==> Sent(before, fp.out, field, n + len)
    ensures !ok ==> fp.out == old(fp.out) && Wrote(before, fp.out, fp.limit, field, -1)
  {
    ok := fp.Pad(ch, len);
    if !ok {
      StoppedAtomic(before, field, n, Repeat(ch, len), fp.limit, fp.out);
      return;
    }
    Advance(before, field, n, Repeat(ch, len), old(fp.out));
  }

  /** `PRINT` of the piece `s` of `field` at offset `n`. */
  method PrintN(fp: Stream, s: string, ghost before: string, ghost field: string, ghost n: nat)
    returns (ok: bool)
    requires fp.Valid()
    requires Piece(field, n, s) && Sent(before, fp.out, field, n)
    modifies fp
    ensures fp.Valid()
    ensures ok <==> |old(fp.out)| + |s| <= fp.limit
    ensures ok ==> Sent(before, fp.out, field, n + |s|)
    ensures !ok ==> Wrote(before, fp.out, fp.limit, field, -1)
  {
    ok := Print(fp, s);
    if !ok {
      Stopped(before, field, n, s, fp.limit, old(fp.out), fp.out);
      return;
    }
    Advance(before, field, n, s, old(fp.out));
  }

  /** The special-value branch of `printf_size`: the local pad count, then
      the output of the field. */
  method PrintSpecial(fp: Stream, info: PrintfInfo, negative: bool, special: string)
    returns (done: int)
    requires |special| == 3
    requires fp.Valid()
    modifies fp
    ensures fp.Valid()
    ensures Wrote(old(fp.out), fp.out, fp.limit, SpecialField(info, negative, special), done)
  {
    var width := if info.prec > info.width then info.prec else info.width;
    if negative || info.showsign || info.space {
      width := width - 1;
    }
    width := width - 3;
    ghost var field := SpecialField(info, negative, special);
    ghost var p: nat := if !info.left && width > 0 then width else 0;
    ghost var q: nat := if negative || info.showsign || info.space then p + 1 else p;
    SpecialLayout(info, negative, special, width, p, q);
    assert Sent(fp.out, fp.out, field, 0) by {
      assert fp.out + field[..0] == fp.out;
    }
    done := WriteSpecial(fp, info, negative, special, width, field, p, q);
  }

  /** The output of the special-value field `field`, laid out as
      `SpecialLayout` describes: the leading blanks of a right-justified
      field, the sign, then the letters and trailing blanks. */
  method WriteSpecial(fp: Stream, info: PrintfInfo, negative: bool, special: string, width: int,
                      ghost field: string, ghost p: nat, ghost q: nat)
    returns (done: int)
    requires |special| == 3 && fp.Valid()
    requires p == if !info.left && width > 0 then width else 0
    requires q == if negative || info.showsign || info.space then p + 1 else p
    requires !info.left && width > 0 ==> Piece(field, 0, Repeat(' ', width))
    requires negative || info.showsign || info.space ==>
      Piece(field, p, [if negative then '-' else if info.showsign then '+' else ' '])
    requires Piece(field, q, special)
    requires info.left && width > 0 ==> Piece(field, q + 3, Repeat(' ', width))
    requires |field| == if info.left && width > 0 then q + 3 + width else q + 3
    requires Sent(fp.out, fp.out, field, 0)
    modifies fp
    ensures fp.Valid()
    ensures Wrote(old(fp.out), fp.out, fp.limit, field, done)
  {
    ghost var before := fp.out;
    done := 0;
    var ok: bool;

    if !info.left && width > 0 {
      ok := PadN(fp, ' ', width, before, field, 0);
      if !ok {
        return -1;
      }
      done := done + width;
    }

    if negative || info.showsign || info.space {
      var c := if negative then '-' else if info.showsign then '+' else ' ';
      ok := OutChar(fp, c, before, field, done);
      if !ok {
        return -1;
      }
      done := done + 1;
    }

    done := LettersThenPad(fp, info, special, width, done, before, field);
  }

  /** The rest of the special-value field once `done` characters of it went
      out: the three letters, then the trailing blanks of a left-justified
      field. */
  method LettersThenPad(fp: Stream, info: PrintfInfo, special: string, width: int, done: int,
                        ghost before: string, ghost field: string)
    returns (total: int)
    requires fp.Valid() && |special| == 3 && done >= 0
    requires Piece(field, done, special)
    requires info.left && width > 0 ==> Piece(field, done + 3, Repeat(' ', width))
    requires |field| == if info.left && width > 0 then done + 3 + width else done + 3
    requires Sent(before, fp.out, field, done)
    modifies fp
    ensures fp.Valid()
    ensures Wrote(before, fp.out, fp.limit, field, total)
  {
    var ok := PrintN(fp, special, before, field, done);
    if !ok {
      return -1;
    }
    total := done + 3;
    if info.left && width > 0 {
      ok := PadN(fp, ' ', width, before, field, total);
      if !ok {
        return -1;
      }
      total := total + width;
    }
    Completed(before, field, fp.limit, fp.out);
  }

  /** The finite-value branch of `printf_size`: the renderer's digits, the
      unit character and, when left-justified with a blank pad, the padding
      after the unit. */
  method PrintNormal(fp: Stream, info: PrintfInfo, value: real, unit: char, render: Renderer)
    returns (done: int)
    requires fp.Valid()
    modifies fp
    ensures fp.Valid()
    ensures Delivered(old(fp.out), fp.out, fp.limit, NormalField(info, value, unit, render), done)
  {
    ghost var before := fp.out;
    var fpInfo := FixedRequest(info);
    ghost var s := if render(value, fpInfo).Digits? then render(value, fpInfo).text else [];
    ghost var field := s + [unit] + UnitPad(info, s);
    NormalLayout(info, s, unit);
    assert Sent(before, fp.out, field, 0) by {
      assert before + field[..0] == before;
    }
    if fpInfo.left && fpInfo.pad == ' ' {
      done := PrintfFp(fp, fpInfo, value, render);
      if done == -1 && render(value, fpInfo).Digits? {
        StoppedAtomic(before, field, 0, s, fp.limit, fp.out);
      }
      if done > 0 {
        Advance(before, field, 0, s, before);
        done := UnitThenPad(fp, info, unit, done, before, s, field);
      }
    } else {
      done := PrintfFp(fp, fpInfo, value, render);
      if done == -1 && render(value, fpInfo).Digits? {
        StoppedAtomic(before, field, 0, s, fp.limit, fp.out);
      }
      if done > 0 {
        Advance(before, field, 0, s, before);
        var ok := OutChar(fp, unit, before, field, done);
        if !ok {
          return -1;
        }
        done := done + 1;
        Completed(before, field, fp.limit, fp.out);
      }
    }
  }

  /** What the left-justified branch writes once the renderer wrote `s`
      (`done` characters): the unit, then blanks while the count is below
      the width. */
  method UnitThenPad(fp: Stream, info: PrintfInfo, unit: char, done: int,
                     ghost before: string, ghost s: string, ghost field: string)
    returns (total: int)
    requires fp.Valid() && PadsAfterUnit(info)
    requires done == |s| > 0 && field == s + [unit] + UnitPad(info, s)
    requires Piece(field, |s|, [unit]) && Piece(field, |s| + 1, UnitPad(info, s))
    requires |field| == |s| + 1 + |UnitPad(info, s)|
    requires Sent(before, fp.out, field, |s|)
    modifies fp
    ensures fp.Valid()
    ensures Wrote(before, fp.out, fp.limit, field, total)
  {
    var ok := OutChar(fp, unit, before, field, done);
    if !ok {
      return -1;
    }
    total := done + 1;
    if info.width > total {
      ok := PadN(fp, ' ', info.width - total, before, field, total);
      if !ok {
        return -1;
      }
      total := total + (info.width - total);
    }
    Completed(before, field, fp.limit, fp.out);
  }

  /** `printf_size`: writes the field for `arg` to `fp` and returns the
      number of characters written, -1 as soon as a write fails, or the
      renderer's own failure code. */
  method PrintfSize(fp: Stream, info: PrintfInfo, arg: FloatArg, render: Renderer)
    returns (done: int)
    requires fp.Valid()
    modifies fp
    ensures fp.Valid()
    ensures Delivered(old(fp.out), fp.out, fp.limit, SizeField(info, arg, render), done)
  {
    var sys := SystemOf(info.spec);
    var units := sys.Units();
    var value: real := 0.0;
    var tag: nat := 0;
    var negative := false;
    var special: string := [];  // empty: no special value (NULL)

    match arg {
      case NaN =>
        special := "nan";
        negative := false;
      case Inf(neg) =>
        special := "inf";
        negative := neg;
      case Finite(x) =>
        value, tag := ScaleDown(x, sys);
    }

    if special != [] {
      done := PrintSpecial(fp, info, negative, special);
      return;
    }
    done := PrintNormal(fp, info, value, units[tag], render);
  }

  // ---------------------------------------------------------------------
  // `printf_size_info`.

  /** `PA_DOUBLE` and `PA_FLAG_LONG_DOUBLE` of the GNU C library's
      <printf.h>: the type occupies the low byte, modifier flags the next. */
  const PA_DOUBLE: int := 7
  const PA_FLAG_LONG_DOUBLE: int := 0x100

  /** The argument type `printf_size` consumes: a double, flagged as long
      double when the request says so. */
  function ArgType(isLongDouble: bool): (r: int)
    ensures r % 0x100 == PA_DOUBLE
    ensures (r / PA_FLAG_LONG_DOUBLE) % 2 == 1 <==> isLongDouble
    ensures 0 <= r < 2 * PA_FLAG_LONG_DOUBLE
  {
    PA_DOUBLE + (if isLongDouble then PA_FLAG_LONG_DOUBLE else 0)
  }

  /** `printf_size_info`: records the one argument in `argtypes[0]` when
      there is room for it and always reports one argument. */
  method PrintfSizeInfo(info: PrintfInfo, n: nat, argtypes: array<int>) returns (count: int)
    requires n <= argtypes.Length
    modifies argtypes
    ensures count == 1
    ensures n >= 1 ==> argtypes[0] == ArgType(info.isLongDouble)
    ensures n >= 1 ==> argtypes[1..] == old(argtypes[1..])
    ensures n == 0 ==> argtypes[..] == old(argtypes[..])
  {
    if n >= 1 {
      argtypes[0] := ArgType(info.isLongDouble);
    }
    return 1;
  }
}
