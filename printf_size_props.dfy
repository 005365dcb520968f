/** Properties of the `printf_size` model: the scaling arithmetic, the
    choice of unit table, and the layout of the field on each path. */
module PrintfSizeProps {
  import opened Sink
  import opened PrintfSize

  function Max(a: int, b: int): int {
    if a >= b then a else b
  }

  // ---------------------------------------------------------------------
  // Unit tables.

  /** Every entry of a table after the first is a letter, upper-case exactly
      in the decimal table; the first entry is the blank of an unscaled
      value. */
  lemma UnitEntry(sys: UnitSystem, i: nat)
    requires i < |sys.Units()|
    ensures sys.Units()[i] == ' ' <==> i == 0
    ensures i > 0 ==> (IsUpper(sys.Units()[i]) <==> sys == Decimal)
  {
    if sys == Decimal {
      assert sys.Units() == [' ', 'K', 'M', 'G', 'T', 'P', 'E', 'Z', 'Y'];
    } else {
      assert sys.Units() == [' ', 'k', 'm', 'g', 't', 'p', 'e', 'z', 'y'];
    }
  }

  /** The two tables share no unit letter, so the letter printed tells which
      divisor was used. */
  lemma TablesDisjoint(i: nat, j: nat)
    requires 0 < i < |Binary.Units()| && 0 < j < |Decimal.Units()|
    ensures Binary.Units()[i] != Decimal.Units()[j]
  {
    UnitEntry(Binary, i);
    UnitEntry(Decimal, j);
  }

  // ---------------------------------------------------------------------
  // Scaling.

  lemma {:induction false} PowPositive(b: real, n: nat)
    requires b > 0.0
    ensures Pow(b, n) > 0.0
  {
    if n > 0 {
      PowPositive(b, n - 1);
    }
  }

  /** The scaling stops below the divisor or at the last unit. */
  lemma {:induction false} ScaleFromExit(v: real, sys: UnitSystem, tag: nat)
    requires tag < |sys.Units()|
    ensures var r := ScaleFrom(v, sys, tag);
      r.value < sys.Divisor() as real || r.tag == |sys.Units()| - 1
    decreases |sys.Units()| - tag
  {
    var d := sys.Divisor() as real;
    if v >= d && tag + 1 < |sys.Units()| {
      ScaleFromExit(v / d, sys, tag + 1);
    }
  }

  lemma Redivide(b: real, d: real, a: real, p: real)
    requires d > 0.0 && a == b / d
    ensures b * p == a * (d * p)
  {
    assert b == a * d;
  }

  /** A value `v` times a positive `p`: at least `p` when `v` is at least
      one, below `d * p` when `v` is below `d`. */
  lemma Between(x: real, v: real, d: real, p: real)
    requires p > 0.0 && x == v * p
    ensures v >= 1.0 ==> p <= x
    ensures v < d ==> x < d * p
  {
  }

  /** Dividing first and then `n` more times is dividing `n + 1` times. */
  lemma {:induction false} ShrinkShift(v: real, sys: UnitSystem, n: nat)
    ensures Shrink(v / sys.Divisor() as real, sys, n) == Shrink(v, sys, n + 1)
  {
    if n > 0 {
      ShrinkShift(v, sys, n - 1);
    }
  }

  /** The scaled value is the start divided once per unit step. */
  lemma {:induction false} ScaleFromShrink(v: real, sys: UnitSystem, tag: nat)
    requires tag < |sys.Units()|
    ensures var r := ScaleFrom(v, sys, tag); r.value == Shrink(v, sys, r.tag - tag)
    decreases |sys.Units()| - tag
  {
    var d := sys.Divisor() as real;
    if v >= d && tag + 1 < |sys.Units()| {
      ScaleFromShrink(v / d, sys, tag + 1);
      var r := ScaleFrom(v / d, sys, tag + 1);
      ShrinkShift(v, sys, r.tag - (tag + 1));
    }
  }

  /** Multiplying back by the divisor once per division gives the start. */
  lemma {:induction false} ShrinkUndone(x: real, sys: UnitSystem, n: nat)
    ensures x == Shrink(x, sys, n) * Pow(sys.Divisor() as real, n)
  {
    if n > 0 {
      var d := sys.Divisor() as real;
      ShrinkUndone(x, sys, n - 1);
      Redivide(Shrink(x, sys, n - 1), d, Shrink(x, sys, n), Pow(d, n - 1));
    }
  }

  /** A value that was divided at least once is at least one. */
  lemma {:induction false} ScaleFromAtLeastOne(v: real, sys: UnitSystem, tag: nat)
    requires tag < |sys.Units()|
    ensures var r := ScaleFrom(v, sys, tag);
      r.tag > tag ==> r.value >= 1.0
    decreases |sys.Units()| - tag
  {
    var d := sys.Divisor() as real;
    if v >= d && tag + 1 < |sys.Units()| {
      var w := v / d;
      assert w >= 1.0 by {
        assert w * d == v;
      }
      ScaleFromAtLeastOne(w, sys, tag + 1);
    }
  }

  /** The scaled value is `x` divided once per unit step. */
  lemma ScaleIsShrink(x: real, sys: UnitSystem)
    ensures Scale(x, sys).value == Shrink(x, sys, Scale(x, sys).tag)
  {
    ScaleFromShrink(x, sys, 0);
    assert Scale(x, sys).tag - 0 == Scale(x, sys).tag;
  }

  /** The scaled value times the divisor to the power of the unit index is
      `x` again. */
  lemma ScaleUndone(x: real, sys: UnitSystem)
    ensures x == Scale(x, sys).value * Pow(sys.Divisor() as real, Scale(x, sys).tag)
  {
    ScaleIsShrink(x, sys);
    Undone(x, sys, Scale(x, sys));
  }

  lemma Undone(x: real, sys: UnitSystem, r: Scaled)
    requires r.value == Shrink(x, sys, r.tag)
    ensures x == r.value * Pow(sys.Divisor() as real, r.tag)
  {
    ShrinkUndone(x, sys, r.tag);
  }

  /** A scaled value lies between two consecutive powers of the divisor: at
      least the power of its unit index, below the next unless it reached
      the last unit. */
  lemma ScaleMagnitude(x: real, sys: UnitSystem)
    ensures Scale(x, sys).tag > 0 ==> Pow(sys.Divisor() as real, Scale(x, sys).tag) <= x
    ensures Scale(x, sys).tag < |sys.Units()| - 1 ==> x < Pow(sys.Divisor() as real, Scale(x, sys).tag + 1)
  {
    ScaleIsShrink(x, sys);
    ScaleBounds(x, sys);
    Magnitude(x, sys, Scale(x, sys));
  }

  lemma Magnitude(x: real, sys: UnitSystem, r: Scaled)
    requires r.value == Shrink(x, sys, r.tag)
    requires r.tag > 0 ==> r.value >= 1.0
    requires r.value < sys.Divisor() as real || r.tag == |sys.Units()| - 1
    ensures r.tag > 0 ==> Pow(sys.Divisor() as real, r.tag) <= x
    ensures r.tag < |sys.Units()| - 1 ==> x < Pow(sys.Divisor() as real, r.tag + 1)
  {
    var d := sys.Divisor() as real;
    Undone(x, sys, r);
    PowPositive(d, r.tag);
    Between(x, r.value, d, Pow(d, r.tag));
  }

  /** What the scaling loop of `printf_size` promises about a finite `x`:
      at most one division per unit after the first; the result is below the divisor unless the
      last unit was reached; a value below the divisor, every negative one
      included, keeps index 0 and is not changed; a scaled value is at least
      one. */
  lemma ScaleBounds(x: real, sys: UnitSystem)
    ensures var r := Scale(x, sys); var d := sys.Divisor() as real;
      && r.tag <= |sys.Units()| - 1
      && (r.value < d || r.tag == |sys.Units()| - 1)
      && (x < d <==> r.tag == 0)
      && (r.tag == 0 ==> r.value == x)
      && (r.tag > 0 ==> 1.0 <= r.value)
  {
    ScaleFromExit(x, sys, 0);
    ScaleFromAtLeastOne(x, sys, 0);
  }

  /** Every negative finite value keeps a blank unit and is printed as it
      is, because the loop test compares the signed value. */
  lemma NegativeNeverScaled(x: real, spec: char)
    requires x < 0.0
    ensures Scale(x, SystemOf(spec)) == Scaled(x, 0)
    ensures SystemOf(spec).Units()[Scale(x, SystemOf(spec)).tag] == ' '
  {
    ScaleBounds(x, SystemOf(spec));
  }

  // ---------------------------------------------------------------------
  // The special-value field.

  lemma {:induction false} BlanksOnly(n: int, c: char)
    requires c != ' '
    ensures c !in Repeat(' ', n)
  {
    if n > 0 {
      BlanksOnly(n - 1, c);
    }
  }

  /** The layout of "nan" or "inf": as wide as the larger of precision and
      width, never narrower than sign and letters; the letters preceded by
      the sign; blanks, whatever the pad character, on the side away from
      the justification. */
  lemma SpecialShape(info: PrintfInfo, negative: bool, special: string)
    requires |special| == 3
    ensures var f := SpecialField(info, negative, special);
      var body := SignOf(info, negative) + special;
      && |f| == Max(Max(info.prec, info.width), |body|)
      && (info.left ==> f == body + Repeat(' ', |f| - |body|))
      && (!info.left ==> f == Repeat(' ', |f| - |body|) + body)
  {
    var sign := SignOf(info, negative);
    assert |sign| == (if negative || info.showsign || info.space then 1 else 0);
    var pad := Repeat(' ', SpecialPad(info, negative));
    var f := SpecialField(info, negative, special);
    assert |f| == |pad| + |sign| + 3;
    if info.left {
      assert f == sign + special + pad;
    } else {
      assert f == pad + sign + special;
    }
  }

  /** A NaN is never printed with a minus sign, even with the forced-sign
      or space flags. */
  lemma NaNHasNoMinus(info: PrintfInfo, render: Renderer)
    ensures SizeField(info, NaN, render).Emit?
    ensures '-' !in SizeField(info, NaN, render).text
  {
    var pad := Repeat(' ', SpecialPad(info, false));
    BlanksOnly(SpecialPad(info, false), '-');
    var sign := SignOf(info, false);
    assert '-' !in sign;
    var f := SpecialField(info, false, "nan");
    if info.left {
      assert f == sign + "nan" + pad;
    } else {
      assert f == pad + sign + "nan";
    }
  }

  /** An infinity is printed with a minus sign exactly when it is negative. */
  lemma InfMinusIffNegative(info: PrintfInfo, negative: bool, render: Renderer)
    ensures SizeField(info, Inf(negative), render).Emit?
    ensures '-' in SizeField(info, Inf(negative), render).text <==> negative
  {
    var pad := Repeat(' ', SpecialPad(info, negative));
    BlanksOnly(SpecialPad(info, negative), '-');
    var sign := SignOf(info, negative);
    assert '-' in sign <==> negative;
    var f := SpecialField(info, negative, "inf");
    if info.left {
      assert f == sign + "inf" + pad;
    } else {
      assert f == pad + sign + "inf";
    }
  }

  // ---------------------------------------------------------------------
  // The field of a finite value.

  /** The unit printed after the digits comes from the table the specifier
      chose; it is the blank exactly when the value was below the divisor,
      and otherwise a letter whose case is the specifier's. */
  lemma UnitOfField(info: PrintfInfo, x: real, render: Renderer)
    ensures var sys := SystemOf(info.spec);
      var sc := Scale(x, sys);
      var u := sys.Units()[sc.tag];
      && u in sys.Units()
      && (u == ' ' <==> x < sys.Divisor() as real)
      && (u != ' ' ==> (IsUpper(u) <==> IsUpper(info.spec)))
  {
    var sys := SystemOf(info.spec);
    var sc := Scale(x, sys);
    ScaleBounds(x, sys);
    UnitEntry(sys, sc.tag);
  }

  /** The field of a finite value: a renderer failure is passed on with no
      unit; an empty rendering gets no unit; otherwise the digits are
      followed by exactly one unit character, then, when `printf_size` pads
      after the unit, by blanks up to the width. */
  lemma NormalShape(info: PrintfInfo, x: real, render: Renderer)
    ensures var sys := SystemOf(info.spec);
      var sc := Scale(x, sys);
      var u := sys.Units()[sc.tag];
      var o := SizeField(info, Finite(x), render);
      match render(sc.value, FixedRequest(info))
      case RenderFailed(code) => o == Fail(code)
      case Digits(s) =>
        && (|s| == 0 ==> o == Emit([]))
        && (|s| > 0 && PadsAfterUnit(info) ==>
              o.Emit? && |o.text| == Max(info.width, |s| + 1)
              && o.text[..|s| + 1] == s + [u]
              && forall i :: |s| + 1 <= i < |o.text| ==> o.text[i] == ' ')
        && (|s| > 0 && !PadsAfterUnit(info) ==> o == Emit(s + [u]))
  {
    var sys := SystemOf(info.spec);
    var sc := Scale(x, sys);
    var u := sys.Units()[sc.tag];
    match render(sc.value, FixedRequest(info))
    case RenderFailed(code) =>
    case Digits(s) =>
      if |s| > 0 && PadsAfterUnit(info) {
        var t := s + [u] + UnitPad(info, s);
        assert t[..|s| + 1] == s + [u];
        forall i | |s| + 1 <= i < |t|
          ensures t[i] == ' '
        {
          assert t[i] == UnitPad(info, s)[i - (|s| + 1)];
        }
      }
  }

  /** Why `fp_info.width` is `info->width - 1` when the renderer pads: with
      a renderer that pads to the width it is asked for, every field that
      is printed at all, on either branch and for special values too, is at
      least `info->width` wide. */
  lemma FillsWidth(info: PrintfInfo, arg: FloatArg, render: Renderer)
    requires PadsToRequest(render)
    ensures var o := SizeField(info, arg, render);
      o.Emit? && |o.text| > 0 ==> |o.text| >= info.width
  {
    if arg.Finite? {
      var sys := SystemOf(info.spec);
      var sc := Scale(arg.value, sys);
      var req := FixedRequest(info);
      var rendered := render(sc.value, req);
      if rendered.Digits? && !PadsAfterUnit(info) {
        assert |rendered.text| >= req.width;
      }
    }
  }

  // ---------------------------------------------------------------------
  // Worked values.

  /** Decimal units (any upper-case specifier): 1500 is 1.5 with unit 'K'
      and 10^12 is 1.0 with unit 'T'. Binary units (any other specifier):
      -2048 is left unscaled and 3072 is 3.0 with unit 'k'. */
  lemma ScaleExamples()
    ensures Scale(1500.0, Decimal) == Scaled(1.5, 1)
    ensures Scale(1000000000000.0, Decimal) == Scaled(1.0, 4)
    ensures Scale(-2048.0, Binary) == Scaled(-2048.0, 0)
    ensures Scale(3072.0, Binary) == Scaled(3.0, 1)
  {
    assert ScaleFrom(1.5, Decimal, 1) == Scaled(1.5, 1);
    assert ScaleFrom(1.0, Decimal, 4) == Scaled(1.0, 4);
    assert ScaleFrom(1000.0, Decimal, 3) == Scaled(1.0, 4);
    assert ScaleFrom(1000000.0, Decimal, 2) == Scaled(1.0, 4);
    assert ScaleFrom(1000000000.0, Decimal, 1) == Scaled(1.0, 4);
    assert ScaleFrom(3.0, Binary, 1) == Scaled(3.0, 1);
  }

  /** A NaN in a field of width 6 is right-justified with blanks; a positive
      infinity with the forced-sign flag gets a plus. */
  lemma SpecialExamples(info: PrintfInfo, render: Renderer)
    requires info.prec == -1 && !info.showsign && !info.space && !info.left
    ensures SizeField(info.(width := 6), NaN, render) == Emit("   nan")
    ensures SizeField(info.(width := 0, showsign := true), Inf(false), render) == Emit("+inf")
  {
    assert Repeat(' ', 3) == "   ";
    assert Repeat(' ', 0) == [];
  }
}
