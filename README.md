# printf_size in Dafny

A model of `printf_size` and `printf_size_info` from `stdio/printf_size.c`.
Together they implement a user-registered printf conversion that prints a
floating-point number scaled to a unit of magnitude:

- Upper-case specifiers divide by 1000 and use the units `" KMGTPEZY"`.
- Any other specifier, such as the lower-case `%k`-style ones, divides by
  1024 and uses `" kmgtpezy"`.
- Index 0 of a table is the blank written after a value that was not scaled.

`printf_size` classifies the argument as NaN, infinity or a finite value. A
finite value is divided in place until it is below the divisor or the table
has no further unit. Then one of three things happens:

- A special value prints as "nan" or "inf", with a sign and blank padding.
- A finite value is otherwise handed to the fixed-point renderer
  `__printf_fp`, with a request built from the caller's, and the unit
  character is written after it.
- When the field is left-justified with a blank pad, `printf_size` writes the
  trailing padding itself, after the unit.

A failing write makes the function return -1 at once. A renderer result that
is not positive is returned as it is, and nothing else is written.
`printf_size_info` tells the formatted-output engine that the conversion
consumes one `double` argument, flagged as `long double` when the request
says so.

Files:

- `sink.dfy` (module `Sink`) is the `FILE *` the macros write to. It is a
  class `Stream` whose output and capacity are fields. Its operations are
  `putc`, the block write behind `PUT` and `PAD`, and the padding string
  `Repeat`. The predicate `Wrote` says what a call that should write a given
  text did to the stream.
- `printf_size.dfy` (module `PrintfSize`) holds three things:
  - the data (`PrintfInfo`, `FloatArg`, the unit tables);
  - the specification functions (`Scale`, `SpecialField`, `FixedRequest`,
    `NormalField`, `SizeField`);
  - the imperative operations, proved against those functions: the scaling
    loop, the `outchar`/`PRINT`/`PADN` macros, both output branches,
    `printf_size` and `printf_size_info`.
- `printf_size_props.dfy` (module `PrintfSizeProps`) holds the lemmas about
  the specification functions: the bounds and the inverse of the scaling,
  the choice of unit, and the shape of each kind of field.

The renderer `__printf_fp` is a parameter of type `Renderer`. Given the
scaled value and the request, it yields the text it prints or its
(non-positive) result. Values are exact reals.

Three things the code does that a reader may not expect:

- The scaling loop compares the signed value with the divisor. A negative
  finite value is therefore never scaled: -2048 in binary mode prints as
  -2048 followed by the blank unit. See `PrintfSizeProps.NegativeNeverScaled`
  and `PrintfSizeProps.ScaleExamples`.
- An unscaled value is followed by the blank entry of the table, which is
  written as a character. "0.000" is therefore printed as "0.000 ".
- A renderer result of 0 is not followed by the unit either, because the
  test is `done > 0`.

## Model

| member | source | states |
|---|---|---|
| PrintfSize.IsUpper | stdio/printf_size.c:111 | `isupper` of the conversion specifier, in the C locale: the letters 'A' to 'Z' |
| PrintfSize.UnitSystem.Units | stdio/printf_size.c:104-110 | each table has nine entries: first the blank of an unscaled value, then eight letters that are upper case exactly in the decimal table |
| PrintfSize.UnitSystem.Divisor | stdio/printf_size.c:112 | the divisor is greater than 1, so each step of the loop shrinks a positive value, and it is 1000 exactly for the decimal table |
| PrintfSize.SystemOf | stdio/printf_size.c:111-112 | the divisor is 1000 for an upper-case specifier and 1024 otherwise, and every unit letter of the chosen table has the case of the specifier |
| PrintfSize.SignOf | stdio/printf_size.c:193-198 | one sign character exactly when the value is negative or the forced-sign or space flag is set, and a '-' exactly when the value is negative |
| PrintfSize.SpecialPad | stdio/printf_size.c:184-188 | the pad count plus the sign and the three letters add up to the larger of the precision and the width |
| PrintfSize.SpecialField | stdio/printf_size.c:184-205 | the special field is at least as wide as the width, the precision, and the sign plus the letters |
| PrintfSize.PadsAfterUnit | stdio/printf_size.c:223 | the branch test: `printf_size` pads after the unit itself exactly when the field is left-justified and the pad character is a blank |
| PrintfSize.UnitPad | stdio/printf_size.c:233-234 | the blanks after the unit bring digits plus unit up to exactly `info->width` when `printf_size` pads after the unit and the field is narrower; otherwise there are none |
| PrintfSize.NormalField | stdio/printf_size.c:223-246 | a renderer failure is passed on; otherwise the field is empty exactly when the rendering is; a non-empty field starts with the digits and then the unit, and when padded after the unit it is at least `info->width` wide |
| PrintfSize.SizeField | stdio/printf_size.c:100-249 | only a finite argument can give a renderer failure; NaN and infinities always give a field at least `info->width` wide |
| Sink.Stream.Write | stdio/printf_size.c:52 | `PUT`: the block is appended exactly when it fits in the stream, otherwise nothing is appended and the write fails |
| Sink.Stream.PutChar | stdio/printf_size.c:59-66 | `putc` in `outchar`: succeeds exactly when there is room for one more character, which is then appended |
| Sink.Stream.Pad | stdio/printf_size.c:53 | `PAD`: appends `n` copies of the pad character when they fit, otherwise nothing, and reports which |
| Sink.Repeat | stdio/printf_size.c:86-93 | the padding text: exactly `n` copies of the character for a positive `n`, empty otherwise |
| PrintfSize.ScaleFrom | stdio/printf_size.c:175-179 | continuing the scaling loop from unit `tag` never moves the unit backwards and never past the last entry of the table |
| PrintfSize.Scale | stdio/printf_size.c:151-155 | the unit index the scaling ends at is always an entry of the active table |
| PrintfSize.ScaleDown | stdio/printf_size.c:175-179 | the loop's value and unit are those of `Scale`; the value is `x` divided `tag` times by the divisor; the loop stops below the divisor or at the last unit |
| PrintfSize.FixedRequest | stdio/printf_size.c:210-241 | `fp_info` has specifier 'f', precision 3 when none was given and the caller's otherwise, width 0 when padding after the unit and width-1 otherwise, and every other field copied unchanged |
| PrintfSize.PrintfFp | stdio/printf_size.c:229-243 | `__printf_fp`: the renderer's failure code is returned with nothing written; its text is written and its length returned when it fits, otherwise -1 with nothing written |
| PrintfSize.Print | stdio/printf_size.c:68-84 | `PRINT` of at most 20 characters: succeeds exactly when the text fits; on failure the stream holds a prefix of the text that is strictly shorter than the text |
| PrintfSize.OutChar | stdio/printf_size.c:59-66 | `outchar` of the next character of a field: it succeeds exactly when there is room and the field advances by one; on failure the call reports -1 with a proper prefix of the field written |
| PrintfSize.PadN | stdio/printf_size.c:86-93 | `PADN` of the next blanks of a field: it succeeds exactly when they fit and the field advances by `len`; on failure -1 with a proper prefix written |
| PrintfSize.PrintN | stdio/printf_size.c:68-84 | `PRINT` of the next piece of a field: it succeeds exactly when the piece fits and the field advances by its length; on failure -1 with a proper prefix written |
| PrintfSize.Advance | stdio/printf_size.c:86-93 | after the first `n` characters of a field, writing the piece at `n` leaves the first `n + |w|` written |
| PrintfSize.Stopped | stdio/printf_size.c:68-84 | a write that fails partway through a piece leaves a proper prefix of the whole field |
| PrintfSize.StoppedAtomic | stdio/printf_size.c:86-93 | a block write that fails leaves a proper prefix of the whole field |
| PrintfSize.Completed | stdio/printf_size.c:205 | once all of the field is written and within capacity, the call has delivered the field and returns its length |
| PrintfSize.SpecialLayout | stdio/printf_size.c:184-204 | in the special field, the leading blanks start at 0, the sign at `p`, the letters at `q` and the trailing blanks at `q+3`, and the field has the length the macros add up to |
| PrintfSize.NormalLayout | stdio/printf_size.c:229-245 | in a finite value's field, the renderer's text is at 0, the unit at `|s|` and the blanks after it at `|s|+1` |
| PrintfSize.PrintSpecial | stdio/printf_size.c:182-206 | the special branch writes `SpecialField` (leading blanks, sign, "nan"/"inf", trailing blanks), returning its length when it fits, otherwise -1 after writing a proper prefix |
| PrintfSize.WriteSpecial | stdio/printf_size.c:190-205 | the pad-before, sign, letters and pad-after sequence delivers the field `SpecialLayout` describes, or -1 and a proper prefix |
| PrintfSize.LettersThenPad | stdio/printf_size.c:200-205 | "nan"/"inf" followed by the trailing blanks of a left-justified field finish the field, or -1 and a proper prefix |
| PrintfSize.PrintNormal | stdio/printf_size.c:223-248 | the finite branch delivers `NormalField`: a renderer failure is returned with nothing written; otherwise the digits, the unit and (left-justified with blank pad) the blanks up to the width, or -1 with a proper prefix |
| PrintfSize.UnitThenPad | stdio/printf_size.c:230-235 | after the digits, the unit and the blanks up to `info->width` complete the field, or -1 with a proper prefix |
| PrintfSize.PrintfSize | stdio/printf_size.c:100-249 | `printf_size` delivers `SizeField` for its argument: NaN and infinities as special fields, finite values scaled and rendered with their unit |
| PrintfSize.ArgType | stdio/printf_size.c:258 | the argument type is `PA_DOUBLE` in the low byte, with the long-double flag set exactly when the request is for a long double, and no other flag bit set |
| PrintfSize.PrintfSizeInfo | stdio/printf_size.c:253-261 | `printf_size_info` always returns 1, stores the argument type in `argtypes[0]` when `n >= 1`, and changes nothing else |
| PrintfSizeProps.UnitEntry | stdio/printf_size.c:104-110 | entry `i` of a table is blank exactly when `i == 0`; a later entry is an upper-case letter exactly in the decimal table |
| PrintfSizeProps.TablesDisjoint | stdio/printf_size.c:104-110 | no unit letter of one table appears in the other |
| PrintfSizeProps.PowPositive | stdio/printf_size.c:175-179 | every power of a positive divisor is positive |
| PrintfSizeProps.ScaleFromExit | stdio/printf_size.c:175 | when the loop stops, the value is below the divisor or the unit is the last of the table |
| PrintfSizeProps.ShrinkShift | stdio/printf_size.c:177 | dividing once more after `n` divisions is the same as dividing `n` times what one division left |
| PrintfSizeProps.ScaleFromShrink | stdio/printf_size.c:175-179 | the loop's value is the starting value divided by the divisor once for each unit it advanced |
| PrintfSizeProps.ShrinkUndone | stdio/printf_size.c:177 | multiplying back by the divisor raised to `n` restores the value divided `n` times |
| PrintfSizeProps.ScaleFromAtLeastOne | stdio/printf_size.c:175-179 | a value the loop divided at least once is at least 1 |
| PrintfSizeProps.ScaleIsShrink | stdio/printf_size.c:151-155 | the printed value is `x` divided by the divisor once per unit step |
| PrintfSizeProps.ScaleUndone | stdio/printf_size.c:175-179 | nothing is lost by scaling: value times divisor to the power of the unit index equals the argument |
| PrintfSizeProps.Undone | stdio/printf_size.c:175-179 | any value obtained by `tag` divisions times the divisor to the power `tag` is the argument |
| PrintfSizeProps.ScaleMagnitude | stdio/printf_size.c:175-179 | a scaled argument is at least the divisor to the power of its unit index and, below the last unit, less than the next power |
| PrintfSizeProps.Magnitude | stdio/printf_size.c:175-179 | the same bounds for any scaled value within [1, divisor) or at the last unit |
| PrintfSizeProps.ScaleBounds | stdio/printf_size.c:175-179 | the unit index is at most the last of the table; the value ends below the divisor unless the table ran out; the argument is unscaled exactly when below the divisor; a scaled value is at least 1 |
| PrintfSizeProps.NegativeNeverScaled | stdio/printf_size.c:175 | a negative argument keeps its value and the blank unit |
| PrintfSizeProps.BlanksOnly | stdio/printf_size.c:86-93 | the padding of a field contains no character but the blank |
| PrintfSizeProps.SpecialShape | stdio/printf_size.c:184-205 | the special field is as wide as the larger of the precision, the width and sign-plus-letters; left-justified it is sign, letters, blanks, and otherwise blanks, sign, letters |
| PrintfSizeProps.NaNHasNoMinus | stdio/printf_size.c:163-167 | a NaN's field never contains '-' |
| PrintfSizeProps.InfMinusIffNegative | stdio/printf_size.c:168-172 | an infinity's field contains '-' exactly when the infinity is negative |
| PrintfSizeProps.UnitOfField | stdio/printf_size.c:232-245 | the unit written is an entry of the table the specifier selects; it is the blank exactly when the argument is below the divisor, and an upper-case letter otherwise exactly for an upper-case specifier |
| PrintfSizeProps.NormalShape | stdio/printf_size.c:223-246 | renderer failure gives the code and no text; an empty rendering gives nothing; left-justified with blank pad, the field is digits, unit and blanks, as wide as the larger of the width and digits-plus-unit; otherwise it is the digits followed by the unit |
| PrintfSizeProps.FillsWidth | stdio/printf_size.c:223-246 | with a renderer that pads its text to the width it is asked for, every non-empty field `printf_size` prints is at least `info->width` wide, on both branches and for special values |
| PrintfSizeProps.ScaleExamples | stdio/printf_size.c:175-179 | 1500 decimal is 1.5 with unit 1, 1e12 is 1.0 with unit 4, -2048 binary stays unscaled, 3072 binary is 3.0 with unit 1 |
| PrintfSizeProps.SpecialExamples | stdio/printf_size.c:182-206 | NaN at width 6 prints "   nan"; a positive infinity with a forced sign prints "+inf" |

## Left out

- Floating point: values are exact reals, so `fpnum /= divisor` loses nothing. The model does not capture the rounding of repeated division, nor the different ranges of `double` and `long double`. A real has no negative zero, so -0.0 and 0.0 are the same argument, and the "-0.000" that `__printf_fp` prints for negative zero is not modelled.
- The argument fetch (lines 132-160): both the `double` and the `long double` path classify and scale the same way, so the model has one path over `FloatArg`. The width of the argument only reaches the renderer, as `isLongDouble` in the request.
- `__isnan`, `__isinf` and their `long double` forms are the constructors of `FloatArg`. For NaN the sign is dropped, as lines 142 and 166 do.
- `isupper` is taken in the C locale (`'A'..'Z'`); other locales are not modelled.
- `__printf_fp` is not implemented. It is the `Renderer` parameter, and its text is written as one block that fits or is not written at all. A renderer that fails after writing part of its output is not modelled. Nothing is assumed about the digits it produces. The only property used is `PadsToRequest` (its text is at least as wide as the requested width), and only as a hypothesis of `PrintfSizeProps.FillsWidth`.
- `PUT`, `PAD` and `putc` fail only when the stream's capacity would be exceeded. Other I/O errors are not modelled, and a `PAD` that fails after writing some blanks is modelled as writing none.
- The `fwrite` branch of `PRINT` for lengths over 20 is not modelled: `printf_size` only prints three characters with it.
- The C `int` arithmetic of `width`, `info->width - 1` and `info->width - done` is unbounded here. An overflow at the extremes of `int` is not modelled.
- The fields of `fp_info` that `printf_size` leaves uninitialized (among them `wide` and `i18n`) are not part of `PrintfInfo`.
- `PA_DOUBLE` (7) and `PA_FLAG_LONG_DOUBLE` (0x100) come from GNU `<printf.h>`, which is not part of this model. The values used are the GNU C library's.
- `include/sys/ipc.h` only declares `ftok`, which is not part of this model.
