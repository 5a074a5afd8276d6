# Subnet-mask calculator, modelled in Dafny

The repository's one algorithm is `calc_subnet_mask` in
`nethelper/nethelpers.py`. It takes an IPv4 CIDR prefix length: the count of
leading one-bits of a 32-bit network mask, written `/n` in the prefix
notation of section 3.1 of RFC 4632. It returns the mask in dotted-decimal
notation, so 24 gives `"255.255.255.0"`. A prefix outside 0..32 raises
`ValueError` with the message
`"CIDR values are between 0 and 32 inclusive, received <value>"`, where
`<value>` is `str` of the prefix. The model renders every integer there. It
does not model the interpreter's limit on int-to-str conversion (see
"## Left out").

The function works on text. It builds a string of `n` ones padded with zeros
to 32 characters. It cuts that string into slices of eight. It reads each
slice as a binary number and writes it back in decimal. It joins the four
results with dots. The model follows those steps with Dafny functions over
`string` (`seq<char>`), one module per concern:

- `text.dfy`, module `Text`: the string operations the function uses.
  - `Repeat` is `"1" * n`.
  - `LJust` is `str.ljust`.
  - `Chunks8` is the slicing comprehension with step 8.
  - `Join` is `".".join`.
  - `Split` is `str.split`, the inverse that gives `Join` its round trip.
- `numerals.dfy`, module `Numerals`:
  - `BinToNat` is `int(s, 2)`.
  - `NatToDecimal` and `IntToString` are `str`.
  - `DecimalValue` and `ParseInt` read numerals back.
  - powers of two.
- `nethelpers.dfy`, module `NetHelpers`:
  - `CalcSubnetMask` itself, with the raised exception modelled as the
    `ValueError` case of a `Result` datatype.
  - the closed-form meaning of its output, and the lemmas connecting the two.

The input is a Dafny `int`, so negative values and values above 32 reach the
range check just as they do in the source.

What is proved, in short:

- the error case, with its exact message;
- the shape of the bit string;
- slicing and its inverse;
- decimal rendering and its inverse;
- the closed form of every octet;
- that octets never increase from left to right;
- that the four octets, read most significant first, make
  2^32 - 2^(32 - n);
- that this value grows with `n`;
- that it equals the shift-and-mask formulation
  `(0xFFFFFFFF << (32 - n)) & 0xFFFFFFFF` (0 for `n = 0`);
- that the output string splits at its dots into exactly four canonical
  decimal numerals denoting those octets;
- the test vectors.

## Model

| member | source | states |
|---|---|---|
| `NetHelpers.CalcSubnetMask` | nethelper/nethelpers.py:2-14 | The call raises `ValueError` exactly when the prefix is outside 0..32, and then its message is `OutOfRangeMessage` of the prefix; otherwise it returns a string. |
| `NetHelpers.OutOfRangeMessage` | nethelper/nethelpers.py:5-8 | The message is the fixed text `"CIDR values are between 0 and 32 inclusive, received "` followed by a signed numeral that reads back as the offending value. |
| `NetHelpers.BitString` | nethelper/nethelpers.py:11 | For 0 <= n <= 32 the bit string has exactly 32 characters, all binary digits, and position i is `'1'` if and only if i < n. |
| `NetHelpers.BitStringParts` | nethelper/nethelpers.py:11 | The bit string is n ones followed by 32 - n zeros. |
| `NetHelpers.BitStringValue` | nethelper/nethelpers.py:11 | The bit string, read in binary, is 2^32 - 2^(32 - n). |
| `Text.Repeat` | nethelper/nethelpers.py:11 | `c * n` has length n and every character is c. |
| `Text.LJust` | nethelper/nethelpers.py:11 | `ljust` keeps the string as a prefix, pads it with the fill character up to the width, and leaves a string already that long unchanged. |
| `Text.Chunks8` | nethelper/nethelpers.py:12 | Stepping through a string eight characters at a time yields ceil(len/8) slices, each non-empty, slice j of length min(8, len - 8j); for 32 characters that is four slices of eight. |
| `Text.Chunks8At` | nethelper/nethelpers.py:12 | Slice j is exactly the characters from 8j up to 8j + 8, clipped at the end of the string. |
| `Text.FlattenChunks8` | nethelper/nethelpers.py:12 | Concatenating the slices gives back the string that was cut. |
| `Text.FlattenLength` | nethelper/nethelpers.py:12 | Concatenating slices of equal length k gives k times their number of characters. |
| `NetHelpers.ChunksOfBits` | nethelper/nethelpers.py:12-13 | Every slice of a string of binary digits is a string of binary digits, so `int(y, 2)` accepts it. |
| `Numerals.BinToNat` | nethelper/nethelpers.py:13 | The value of a string of binary digits is below 2^length. |
| `Numerals.BinToNatAppend` | nethelper/nethelpers.py:13 | The binary value of a + b is value(a) * 2^len(b) + value(b). |
| `Numerals.BinToNatOnes` | nethelper/nethelpers.py:11-13 | k one-bits are worth 2^k - 1. |
| `Numerals.BinToNatZeros` | nethelper/nethelpers.py:11-13 | Any number of zero-bits is worth 0. |
| `Numerals.OnesThenZeros` | nethelper/nethelpers.py:11-13 | m one-bits followed by z zero-bits are worth 2^(m+z) - 2^z. |
| `Numerals.OctetOfOnes` | nethelper/nethelpers.py:13 | An eight-bit slice of m ones then zeros is a binary string worth 256 - 2^(8 - m). |
| `Numerals.NatToDecimal` | nethelper/nethelpers.py:13 | `str` of a natural number is a canonical numeral: at least one digit, digits only, no leading zero unless the number is 0. It reads back as the number. |
| `Numerals.CanonicalDecimalUnique` | nethelper/nethelpers.py:13 | Every canonical numeral is `str` of the number it denotes, so rendering and reading back are inverse both ways. |
| `Numerals.DecimalPositive` | nethelper/nethelpers.py:13 | A numeral whose first digit is not 0 denotes a positive number. |
| `Numerals.IntToString` | nethelper/nethelpers.py:7 | `str` of an integer is a signed numeral that reads back as the integer, with a minus sign exactly for negative values. The interpreter's digit limit is not modelled (see "## Left out"). |
| `Numerals.IntToStringParseInt` | nethelper/nethelpers.py:7 | Every signed numeral is `str` of the integer it denotes. |
| `NetHelpers.ByteValues` | nethelper/nethelpers.py:13 | `int(y, 2)` of each slice, in order; each value is below 2^(slice length). |
| `NetHelpers.Decimals` | nethelper/nethelpers.py:13 | `str` of each value, in order; each is a canonical numeral that reads back as that value. |
| `NetHelpers.MaskOctets` | nethelper/nethelpers.py:11-13 | The values of the slices are exactly four octets, each at most 255. |
| `NetHelpers.MaskOctetAt` | nethelper/nethelpers.py:12-13 | Octet k is the binary value of slice k. |
| `NetHelpers.ByteStringContents` | nethelper/nethelpers.py:11-12 | Slice k is the ones of the prefix that fall in it, then zeros. |
| `NetHelpers.MaskOctetOnes` | nethelper/nethelpers.py:11-13 | Octet k is 256 - 2^z, where z is the number of zero-bits in slice k. |
| `NetHelpers.OctetValue` | nethelper/nethelpers.py:11-13 | The closed-form octet is at most 255. |
| `NetHelpers.MaskOctetClosedForm` | nethelper/nethelpers.py:11-13 | Octet k is 255 when n >= 8(k+1), 0 when n <= 8k, and 256 - 2^(8(k+1) - n) otherwise. |
| `NetHelpers.OctetsNonIncreasing` | nethelper/nethelpers.py:11-13 | Octets never increase from left to right. |
| `NetHelpers.FlattenBigEndian` | nethelper/nethelpers.py:12-13 | Reading the glued 8-bit slices as one binary number gives the same value as reading the slice values as octets, most significant first. |
| `NetHelpers.MaskOctetsAsBits` | nethelper/nethelpers.py:11-13 | The octets read most significant first equal the bit string read in binary. |
| `NetHelpers.MaskOctetsValue` | nethelper/nethelpers.py:11-13 | The four octets read most significant first are 2^32 - 2^(32 - n). |
| `NetHelpers.BigEndianFour` | nethelper/nethelpers.py:13-14 | Four octets read most significant first are o0 * 2^24 + o1 * 2^16 + o2 * 2^8 + o3. |
| `NetHelpers.MaskValueMonotone` | nethelper/nethelpers.py:11 | The mask value never decreases as the prefix grows, and it strictly increases when the prefix strictly grows. |
| `NetHelpers.MaskValueIsShiftMask` | nethelper/nethelpers.py:11-13 | The mask value equals shifting 0xFFFFFFFF left by 32 - n and keeping the low 32 bits, with 0 for n = 0. |
| `NetHelpers.MaskOctetsAreOctets` | nethelper/nethelpers.py:11-13 | The octets computed through text are the closed-form octets. |
| `NetHelpers.OctetsValue` | nethelper/nethelpers.py:11-13 | The closed-form octets read most significant first are the mask value. |
| `NetHelpers.CalcSubnetMaskOctets` | nethelper/nethelpers.py:11-14 | For 0 <= n <= 32 the result is the four closed-form octets in decimal, joined with dots. |
| `NetHelpers.DecimalsWithoutDot` | nethelper/nethelpers.py:13-14 | No rendered octet contains a dot, so the dots in the result are exactly the three separators. |
| `Text.Split` | nethelper/nethelpers.py:14 | Splitting yields at least one piece, no piece contains the separator, and joining the pieces gives back the string. |
| `Text.SplitJoin` | nethelper/nethelpers.py:14 | Splitting a joined list at the separator gives back the list, when no element contains the separator. |
| `Text.SplitAfterPiece` | nethelper/nethelpers.py:14 | A piece without separator, then the separator, splits off as the first piece. |
| `Text.SplitWithoutSep` | nethelper/nethelpers.py:14 | A string without the separator splits into itself alone. |
| `Text.Join` | nethelper/nethelpers.py:14 | `sep.join(xs)` starts with the first element, followed by the separator when more elements follow; an empty list joins to the empty string. Its inverse is `Text.Split` (see `Text.Split` and `Text.SplitJoin`). |
| `Text.JoinLength` | nethelper/nethelpers.py:14 | A join of a non-empty list holds all the elements' characters plus one separator fewer than there are elements. |
| `Text.JoinFour` | nethelper/nethelpers.py:14 | Joining four strings puts exactly one dot between neighbours. |
| `NetHelpers.CalcSubnetMaskSplits` | nethelper/nethelpers.py:12-14 | For 0 <= n <= 32, splitting the result at its dots gives back the four rendered octets. |
| `NetHelpers.CalcSubnetMaskTokens` | nethelper/nethelpers.py:11-14 | For 0 <= n <= 32 the result splits at its dots into exactly four canonical decimal numerals. Numeral k denotes octet k (at most 255), and the four read most significant first are 2^32 - 2^(32 - n). |
| `NetHelpers.DottedOctets` | nethelper/nethelpers.py:13-14 | Four octets render as their four numerals separated by single dots. |
| `NetHelpers.ExampleZero` | tests/nethelper.py:9-10 | `calc_subnet_mask(0) == "0.0.0.0"`. |
| `NetHelpers.ExampleThirtyTwo` | tests/nethelper.py:12-13 | `calc_subnet_mask(32) == "255.255.255.255"`. |
| `NetHelpers.ExampleSixteen` | tests/nethelper.py:15-16 | `calc_subnet_mask(16) == "255.255.0.0"`. |
| `NetHelpers.ExampleTwentyFour` | nethelper/nethelpers.py:11-14 | `calc_subnet_mask(24) == "255.255.255.0"`. |
| `NetHelpers.ExampleNegative` | tests/nethelper.py:18-20 | `calc_subnet_mask(-1)` raises `ValueError` with the message ending in `received -1`. |
| `NetHelpers.ExampleTooHigh` | tests/nethelper.py:22-24 | `calc_subnet_mask(33)` raises `ValueError` with the message ending in `received 33`. |

## Left out

- `some_module2/some_module.py` is a dependency-injection illustration, not the core. It holds `Logger`, `is_valid`, `times_five`, `not_quite_some_fun`, the `partial`-bound `some_fun` and the module-level logger. `is_valid` rests on Python runtime type tests and float infinity. The rest is callback dispatch and a side-effecting logger. None of it has a model here.
- `tests/context.py` only changes `sys.path` and re-exports; `tests/less_good.py` and `tests/more_better.py` test the dependency-injection example with mocks. They have no model here. `tests/nethelper.py` is used only for its test vectors and its error message.
- Non-integer arguments are not modelled. The `int` annotation is not enforced at runtime, so a float, a `None` or a `bool` (which Python treats as 0 or 1) could reach the function. The model's input is a mathematical integer.
- The exception is modelled as a value, `ValueError(message)` of `Result`. Propagation, tracebacks and the exception class hierarchy are not modelled.
- `Numerals.BinToNat`: covers `int(y, 2)` only on strings of `'0'`/`'1'`, and gives 0 for the empty string, where Python raises `ValueError`. Python also accepts signs, spaces, underscores and a `0b` prefix. `calc_subnet_mask` only ever passes non-empty binary slices, so none of these cases arises.
- `Numerals.IntToString`: does not model the interpreter's limit on int-to-str conversion (`sys.get_int_max_str_digits`, 4300 digits by default in recent CPython releases). With that limit, `str(cidr_number)` at line 7 of `nethelper/nethelpers.py` raises its own `ValueError` for a prefix of more than 4300 decimal digits, before the range message is built. The model still returns `ValueError` exactly when the prefix is out of range, but for such inputs its message is the range message, not the digit-limit message. The limit depends on interpreter version and settings.
- `Text.Chunks8`: models only the step of 8 that the source uses, not slicing with other steps.
- `Text.Join`: models only a one-character separator, as the source uses.
- Determinism and freedom from side effects are not stated as lemmas. They hold because every member is a Dafny function.
