# bit2bin in Dafny

bit2bin turns a written-out sequence of binary digits into a binary file.
The first argument is the input: a literal bit string such as `10101010`,
or the path of a text file that holds the digits. The second argument is the
output path. Every `'0'` or `'1'` the program reads is one bit. Every other
character is skipped, so spaces and newlines change nothing. There is no
comment syntax: a '0' or '1' anywhere in the file, even inside a note or
comment, is a bit. The bits are packed most significant bit first, one byte per eight
bits. A last group of one to seven bits is shifted to the top of a final
byte, and the low positions of that byte are filled with zeros. The program
reports how many zero bits it added and how many bytes it wrote.

The model has five modules:

- `Bytes` (bytes.dfy) defines Go's `byte` as the integers 0..255. It models
  the two operations the loop performs on a byte. `Shl` is `<<`, which drops
  any bit pushed past position 7. `OrOne` is `|= 1`.
- `BitString` (bitstring.dfy) covers which characters are bits
  (`Meaningful`, `Bits`) and `isBitString`.
- `PackSpec` (packspec.dfy) is the functional meaning of packing:
  - `PackBits` cuts the bits into chunks of eight and reads each chunk as a
    number. A short last chunk is followed by zeros.
  - `Padding` is the number of zero bits added.
  - `Unpack` is the inverse direction, bytes back to bits.
  - `WeightedSum` gives the closed form of each output byte.
- `Packer` (packer.dfy) models the loops of `convertStringToBin` and
  `convertTextToBin`:
  - The step for one character (`Feed`) and the final padding (`Finish`)
    are defined once. Both loops use them.
  - `ConvertString` ranges over the argument.
  - `ConvertText` calls `ReadRune` on a reader until end of file.
  - Both are proved to produce `PackBits` of the meaningful bits. The proof
    goes through the loop invariant `Represents`. It says every complete
    byte has been emitted, and the register holds the remaining bits with
    nothing above them.
- `Cli` (cli.dfy) models `main`: the argument count check, the automatic
  choice of mode, the input file that cannot be opened, and the exit status.
  The file system is a map from path to contents, passed as a parameter.

## Model

| member | source | states |
|---|---|---|
| Bytes.Shl | main.go:59 | `b << k` on a byte. While the value fits in the 8 − k free positions, nothing is lost and the result is b·2^k. |
| Bytes.OrOne | main.go:38-40 | Go's bitwise OR with 1 sets the lowest bit and keeps all the other bits. |
| BitString.IsBitString | main.go:10-20 | True exactly when the argument is non-empty and every character is '0' or '1'. |
| BitString.BitsAppend | main.go:34-36 | The bits of a concatenation are the bits of the first part followed by the bits of the second. |
| BitString.NonBitIgnored | main.go:36 | A character other than '0' or '1' changes nothing, wherever it stands in the input. |
| BitString.BitsOfMeaningful | main.go:36 | Removing every non-bit character first gives exactly the same bits. |
| BitString.LiteralSkipsNothing | main.go:86-87 | On an argument accepted as a bit string, the filter skips nothing: there is one bit per character, equal to that character's digit. |
| PackSpec.ChunkByte | main.go:57-59 | The byte for a chunk of r ≤ 8 bits is the chunk followed by 8 − r zero bits, read most significant bit first. |
| PackSpec.PaddingCompletes | main.go:57-58 | Bits plus padding make a whole number of bytes. The padding is zero exactly when the bit count is a multiple of eight. |
| PackSpec.PackLength | main.go:43-64 | The number of bytes is ceil(n/8) for n meaningful bits, and 8 × bytes = n + padding. |
| PackSpec.ClosedForm | main.go:37-44 | Byte k is Σ_{j<8} bit[8k+j]·2^(7−j). Positions past the end count as zero. |
| PackSpec.ByteHoldsChunk | main.go:37-51 | The eight bits of byte k are chunk k of the input, followed by zeros if that chunk is short. |
| PackSpec.LastBytePadded | main.go:57-60 | With n = 8q + r and 0 < r < 8, there are q + 1 bytes. The last byte's high r bits are the last r input bits, and its low 8 − r bits are zero. |
| PackSpec.LastByteFull | main.go:44-52 | With n = 8q and q > 0, there are q bytes and the last byte holds the last eight bits. No padding byte is added. |
| PackSpec.ChunkRoundTrip | main.go:59 | Reading a packed chunk back gives the chunk followed by its padding zeros. |
| PackSpec.UnpackPack | main.go:34-66 | Unpacking the output gives the input bits followed by exactly Padding(n) zero bits, so packing loses nothing. |
| PackSpec.PackUnpack | main.go:37-51 | Any byte sequence is the packing of its own bits, so every possible output is reachable. |
| Packer.ShiftIn | main.go:37-40 | Shifting a register below 128 left by one and OR-ing in the digit gives 2·register + bit. |
| Packer.HeldBelow128 | main.go:37 | At a rest point of the loop the register is below 128, so the next `<<= 1` loses no bit. |
| Packer.Feed | main.go:36-53 | A non-bit character leaves everything unchanged. A bit that is not the eighth stays in the register. The eighth bit emits 2·register + bit and empties the register. The invariant bitCount ≤ 7 and register < 2^bitCount is kept. |
| Packer.Finish | main.go:56-66 | No held bits means no byte and no padding. Otherwise padding = 8 − bitCount, which is between 1 and 7, and the single byte emitted is the register shifted up by the padding. |
| Packer.FeedPreserves | main.go:34-54 | One character keeps the loop invariant: every whole byte so far has been emitted, and the register holds the value of the remaining bits. |
| Packer.FinishCompletes | main.go:56-64 | After the loop, the emitted bytes plus the final byte are exactly PackBits of all the meaningful bits. The reported padding is Padding(n). |
| Packer.ConvertString | main.go:22-70 | The bytes written are the packing of the argument's meaningful bits. totalBytesWritten is their count. paddingNeeded is Padding(n), and 8·totalBytesWritten = n + paddingNeeded. |
| Packer.ReadAllRest | main.go:120-124 | Calling `ReadRune` until end of file yields every remaining character of the input exactly once, in order, and then stops. |
| Packer.ConvertText | main.go:100-166 | The same as for ConvertString, for the characters of the file. |
| Packer.BothPathsAgree | main.go:86-90 | The two conversions give identical bytes, byte count and padding for the same characters. |
| Cli.Run | main.go:72-98 | Fewer than two arguments gives usage. A bit-string argument is always converted literally, even if a file of that name exists, and its padding depends on its length. Any other argument is read as a path. A missing file fails to open. An existing file is packed from its contents, unless it is also the output path: creating the output (main.go:109) truncates it, so nothing is written and there is no padding. The exit status is 0 exactly when there are enough arguments and the input is a bit string or an existing file; otherwise it is 1. |
| Cli.TextAgreesWithLiteral | main.go:86-90 | A text file gives the same bytes and padding as the literal string of its digits. That string is accepted as a bit string whenever it is non-empty. |

## Left out

- File I/O is not modelled. Creating the output file, opening the input, and writing one byte at a time are all outside the model. The output file is the returned byte sequence. The input file is a map entry.
- Write errors and output-creation errors are not modelled: `os.Create` and `Write` never fail here. Only a missing input file is modelled as an error (`Cli.OpenFailed`).
- Read errors other than end of file (main.go:125-127) are not modelled, because the input is a complete, already-read sequence.
- Printed messages are not modelled: the usage text, the padding note, the byte count report, "Conversion complete." and "Error: …". The numbers they print are the returned values.
- UTF-8 decoding is not modelled. Inputs are sequences of `char`. `range` over a Go string and `ReadRune` both produce runes, and invalid UTF-8 becomes U+FFFD. That is never '0' or '1', so it is skipped like any other character.
- Packer.ConvertString: returns paddingNeeded = 0 when no padding byte is written. In main.go the variable exists only inside `if bitCount > 0` (main.go:57-58), and nothing is printed in that case.
- Packer.ConvertText: the same as for ConvertString (main.go:153-154).
- Cli.Run: the input and output are recognised as the same file only when the two paths are the same string. Aliasing through different spellings of one path, or through links, is not modelled, because the model has no notion of path resolution.
- Go's `int` counters (`bitCount`, `totalBytesWritten`) are unbounded integers in the model. An overflow would need more than 2^63 bytes of input.
