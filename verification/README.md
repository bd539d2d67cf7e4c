# The firmware signer, modelled and proved in Dafny

This project models `util/signer`: the tool that loads a firmware ELF file into a
byte memory, pads it, compiles the fuse and info sections of a signing manifest,
signs the image in place with an RSA key in Montgomery form, and prints it as
Intel HEX.

Code that updates an object or a buffer is a class or a method over an array
(`Image.Image`, `FuseScan.Scanner`, `PublicKey.ToArray`, `Manifest.CompileFuses`,
`InfoValues.CompileInfos`). Each such method is proved equal to a function on
values, and the laws are lemmas about those functions, over all inputs and runs.

| file | contents |
|---|---|
| `Common.dfy`, `Arithmetic.dfy` | bytes, words, memory slices; division, powers of two, cancelling modulo an odd number |
| `Limbs.dfy`, `ByteOrder.dfy`, `PublicKey.dfy`, `Montgomery.dfy` | limb arrays, byte weights, `nwords`, `n0inv`, `toArray`, the Montgomery form and its reader |
| `ImageState.dfy`, `Image.dfy` | the image as a value, and the class that is proved against it |
| `ElfLoad.dfy`, `ElfCases.dfy` | the loaded memory as an overlay, the window as a hull; files that lose bytes |
| `IntelHex.dfy` | the text format, its line buffer, the printer and the reader |
| `HexLayout.dfy`, `HexRoundTrip.dfy`, `HexChecksum.dfy` | the printed text written out; printing and reading back; checksums |
| `HexWindow.dfy`, `HexBuffer.dfy` | what an arbitrary text means; independence of leftovers in the line buffer |
| `Padding.dfy`, `Signing.dfy`, `SignedBytes.dfy` | what padding fills and spares; what signing leaves in memory, and what its reader finds |
| `ImageRuns.dfy`, `MainImage.dfy` | whole runs from ELF to text and back; the image main writes |
| `Xml.dfy`, `FuseScan.dfy`, `FuseTable.dfy` | key lookup, the fuse walk, and what it collects |
| `FuseDocument.dfy`, `FuseCases.dfy` | documents of the form of the shipped fuse description, and one written out |
| `Bitmap.dfy`, `FuseBits.dfy`, `Manifest.dfy`, `FuseLaws.dfy` | header bitmaps, fuse compilation and its laws |
| `MainTable.dfy` | when main goes on with the fuses it has read, and with which table |
| `InfoValues.dfy`, `InfoNames.dfy` | info compilation, and its laws by the numbers that names spell |
| `SignedManifest.dfy` | the manifest inside the signed image, and what the signature commits to |

## What the proofs found

Seven properties one would expect are false of the code. Each is proved together
with the exact condition under which it holds, and with an input that breaks it.

- Padding starts at `size()`, not at the end of the image, and sets the end to
  510K even when the image reaches further. A nonempty image survives every
  padding exactly when it starts at 0 and ends at or below 510K
  (`Padding.PaddingIsSafeIff`); a loaded image no longer than what lies in front
  of it can be overwritten completely (`Padding.LoadedImageOverwritten`), and every loaded image that
  reaches 512K loses its last block (`Padding.LoadedImageCut`).
- The window keeps its upper end inclusive before rounding, so the last byte
  stored is cut off exactly when its address is a multiple of 2048
  (`ElfLoad.LoadedWindow`, `ElfCases.LastByteIsLost`).
- `fromElf` keeps segments up to 8M but has 512K of memory, and it returns true
  either way: the segments are loaded in full exactly when every nonempty kept
  one ends inside the memory (`ElfCases.LoadedInFullIff`,
  `ElfCases.ByteBehindMemory`).
- The checksum of a segment record leaves out the low byte, so a printed image
  has only valid checksums exactly when its base is a multiple of 4096, although
  images start at multiples of 2048 (`HexChecksum.ImageChecksums`,
  `ElfCases.LoadedImageBreaksRule`).
- A named fuse can look ignored, exactly when it is 32 bits wide or wider and its
  value is the ignore pattern (`FuseLaws.MarkedIffNotIgnored`); a description and
  a manifest for which main goes through with that are in
  `FuseCases.MarkedButIgnored`.
- A marked info entry can look ignored, exactly when the values whose names spell
  its index cancel (`InfoValues.InfoMarkedIffNotIgnored`,
  `InfoValues.TwoNamesCancel`).
- The key lookup is not a search in document order: an item that matches but has
  no value hides the rest of its own list only. Entering a node is safe exactly
  when the first match in it has a value, or is the node itself
  (`Xml.SearchesInOrderIff`, `Xml.HollowTypeIsPassed`).

On the other hand the reader of Intel HEX never clears its line buffer and its
digit parser does not look for the end of a line, and still neither success nor,
on success, the image depends on what the buffer held before
(`HexBuffer.StackIsIrrelevant`).

Two comments in the source disagree with its code, and the model follows the
code: `get_fuse` says it tracks at most 1024 fuses but has no such bound, and the
fuse that main pins is commented as 3 bits wide but checked to be 5.

## Model

| member | source | states |
|---|---|---|
| Montgomery.ReduceRecoversSignature | util/signer/publickey.cc:263-275 | for every odd modulus and every signature, k word-by-word Montgomery reduction steps with n0inv() on the value sign() emits end at exactly sig mod n |
| Montgomery.OddModulusIffLossless | util/signer/publickey.cc:215-275 | every signature can be recovered, and signatures below n are emitted injectively, if and only if the modulus is odd |
| Montgomery.StepIsExact | util/signer/common/publickey.h:32-37 | with the word n0inv() returns, each reduction step divides by 2^32 without remainder |
| Montgomery.ReduceStaysBelow | util/signer/common/publickey.h:35-37 | every intermediate value stays below n, so no final subtraction is needed |
| Montgomery.StoredSignaturesDiffer | util/signer/publickey.cc:215-275 | different signatures below an odd modulus that fits give different header words |
| PublicKey.N0InvCorrect | util/signer/publickey.cc:82-103 | for odd n, n0inv() is the one word w with n*w + 1 divisible by 2^32; for even n there is none and the result is 0 |
| PublicKey.OddHasInverse | util/signer/publickey.cc:92-94 | Euclid's algorithm finds an inverse modulo 2^32 of every odd number |
| PublicKey.NWordsIsLeast | util/signer/publickey.cc:64-71 | nwords() is the least number of limbs that holds n, and toArray loses nothing exactly from that many limbs on |
| PublicKey.ToArray | util/signer/publickey.cc:146-164 | writes the low nwords limbs of n, least significant first, at the destination and nothing else |
| PublicKey.ModToArray | util/signer/publickey.cc:166-171 | the same for the modulus of the key |
| Limbs.ValueOfLowLimbs | util/signer/publickey.cc:155-158 | the limbs written denote exactly n mod 2^(32 nwords) |
| Limbs.LowLimbsOfValue | util/signer/publickey.cc:155-158 | every limb array is the one written for the number it denotes |
| ByteOrder.WordIsLittle | util/signer/publickey.cc:155-163 | a word is stored with its lowest byte first |
| ByteOrder.WordsAreLittle | util/signer/image.cc:452-463 | so is every word of an array that is hashed |
| Image.Image.constructor | util/signer/image.cc:53-64 | a new image is blank flash with an empty, inverted window |
| Image.Image.Store | util/signer/image.cc:417-427 | stores in range and widens the window, or only clears the success flag |
| Image.Image.Nibble | util/signer/image.cc:363-399 | the value of a hex digit of either case; anything else is 0 and clears the success flag |
| Image.Image.ParseByte | util/signer/image.cc:401-408 | two characters of the line buffer make a byte, wherever the line ends, and the position moves by two |
| Image.Image.ParseWord | util/signer/image.cc:410-415 | two bytes make a word, high byte first |
| Image.Image.NextLine | util/signer/image.cc:213-216 | a chunk of the file goes into the line buffer with a terminator, the first carriage return and newline end it, and what was behind stays |
| Image.Image.ReadText | util/signer/image.cc:214-271 | the loop reads the file buffer by buffer, at most 8191 characters or one line at a time, and does for each what the reader function says |
| Image.Image.FromIntelHex | util/signer/image.cc:207-309 | reading any file in place, whatever the line buffer holds, computes the reader function, with window and bounds finished only on success |
| Image.Image.ReadDataBytes | util/signer/image.cc:252-262 | the announced number of bytes is stored at segment * 16 + offset, or skipped for RAM, even past the end of the line, and always inside the buffer |
| Image.Image.ReadSegmentRecord | util/signer/image.cc:230-246 | a segment record moves the segment if it is in the flash range, and RAM mode depends on the whole line |
| Image.Image.ToIntelHex | util/signer/image.cc:313-331 | the text is exactly the lines the format function lists for the image |
| Image.Image.PrintData | util/signer/image.cc:322-329 | the piecewise output of a data record is the digit text of its sixteen bytes with length, offset, type and checksum |
| Image.Image.FromElf | util/signer/image.cc:112-197 | loading in place computes all stores of the kept segments in order, then the rounded window and the bounds |
| Image.Image.LoadSegments | util/signer/image.cc:151-180 | the loop over all segments leaves the stores of the kept ones in order and the greatest end among them |
| Image.Image.LoadSegment | util/signer/image.cc:152-180 | one segment is skipped, or extends the read-only bound and stores all its bytes |
| Image.Image.ScanSections | util/signer/image.cc:123-149 | the executable bound is the one over the allocated executable sections inside the flash |
| Image.Image.FillPattern | util/signer/image.cc:333-339 | pads the memory in place with one word and moves the end of the image |
| Image.Image.FillRandom | util/signer/image.cc:341-348 | the same with arbitrary words |
| Image.Image.Sign | util/signer/image.cc:429-515 | signing in place changes the header to the final header and reports whether the key signed, which the SignedBytes rows spell out |
| Image.Image.PrepareHeader | util/signer/image.cc:445-466 | everything written before hashing: the prepared header with size, key and the two array checks |
| ElfLoad.LoadedMemory | util/signer/image.cc:152-180 | every byte of the loaded memory is 0xff or the byte of the last kept segment covering its address, at exactly its physical address when segments do not wrap |
| ElfLoad.LoadIsOverlay | util/signer/image.cc:177-179 | the same for any starting memory and for addresses that wrap or are cut to int |
| ElfLoad.LoadIsByteExact | util/signer/image.cc:177-179 | without wrap-around, loading equals the byte the file defines for the address |
| ElfLoad.WindowIsHull | util/signer/image.cc:417-427 | after any run of stores the window is the least and the greatest in-range address, and success means all were in range |
| ElfLoad.LoadedWindow | util/signer/image.cc:182-191 | the rounded window is the tightest pair of block boundaries around all stored addresses, and its end is itself stored exactly when the greatest address is a block multiple |
| ElfLoad.NothingLoaded | util/signer/image.cc:182-191 | without an in-range store the memory is blank and the window inverted |
| ElfCases.LastByteIsLost | util/signer/image.cc:182-191 | a file with one byte at 2048 loads with success, and its image is empty |
| ElfCases.LoadedInFullIff | util/signer/image.cc:152-180 | fromElf reports success for every ELF file, but all bytes of the kept segments are loaded exactly when each nonempty one ends at or below the end of the memory |
| ElfCases.ByteBehindMemory | util/signer/image.cc:161-179 | one byte right behind the memory is kept, dropped, and success is reported |
| ElfLoad.LoadedBounds | util/signer/image.cc:112-197 | a file is taken exactly when it starts with 0x7f ELF, and otherwise the image stays; a new image then has as upper bounds the greatest end of the segments with a nonzero offset in the flash range and of the allocated, executable sections in it, 0 without any, and as lower bounds its start and 1024 behind it |
| ElfLoad.TargetIsInt | util/signer/image.cc:177-179 | addresses are cut to 32 bits with sign |
| ElfLoad.RoMaxIsGreatest | util/signer/image.cc:174-175 | the read-only bound is the greatest end of a kept segment |
| ElfLoad.RxMaxIsGreatest | util/signer/image.cc:147-148 | the executable bound is the greatest end of a tracked section |
| HexLayout.PrintedLayout | util/signer/image.cc:313-331 | the text of an image line by line: for n groups of sixteen bytes n data records with offset, bytes and checksum in upper-case digits, a segment record in front of every 4096th, and nothing else |
| HexLayout.DigitsOfByte | util/signer/image.cc:318-328 | a byte is printed as the digits of its two halves, high half first, out of 0-9 and A-F |
| HexLayout.PrintedCharacters | util/signer/image.cc:313-331 | a printed file has no characters but colons, newlines and these digits |
| HexLayout.NibbleIsDigit | util/signer/image.cc:363-399 | the reader takes digits of both cases for their value and no other character |
| HexRoundTrip.PrintReadRoundTrip | util/signer/image.cc:207-331 | reading a printed aligned image into a fresh one, with any content of the line buffer, succeeds and restores base, end and every byte, if and only if the image is not empty |
| HexRoundTrip.PrintIsInjective | util/signer/image.cc:313-331 | images that print alike have the same window and bytes |
| HexRoundTrip.ReadPrinted | util/signer/image.cc:214-330 | reading the lines from any offset on stores the bytes from there on, across any number of 64K segments |
| HexRoundTrip.ChunksOfLines | util/signer/image.cc:213-214 | the reads of a text made of short lines take it line by line |
| HexRoundTrip.LoadedLine | util/signer/image.cc:214-216 | a line read over any old content leaves its text in the buffer, without the newline |
| HexRoundTrip.ReadSegmentRecord | util/signer/image.cc:230-246 | the reader takes a printed segment record as the segment it was printed for |
| HexRoundTrip.ReadDataRecord | util/signer/image.cc:247-263 | the reader takes a printed data record as sixteen stores at its segment and offset |
| HexChecksum.DataChecksum | util/signer/image.cc:322-328 | the bytes of every data record add up to zero modulo 256 |
| HexChecksum.SegmentChecksum | util/signer/image.cc:317-319 | the bytes of a segment record do so exactly when the low byte of its segment is zero |
| ElfCases.LoadedImageBreaksRule | util/signer/image.cc:316-319 | every loaded block at an odd multiple of 2048 prints with an invalid checksum |
| HexChecksum.ImageChecksums | util/signer/image.cc:313-331 | all lines of a printed image have valid checksums exactly when the base is a multiple of 4096 |
| HexWindow.TextGivesImage | util/signer/image.cc:207-309 | for any text: each byte of the memory is the last one the data records of the text denote for its address, or 0xff; the reader is content exactly when every line is well-formed and every such address in range; and then least and greatest address determine base, end and bounds |
| HexWindow.ReadLinesMeaning | util/signer/image.cc:214-271 | reading lines into any image performs exactly the stores they denote: segment * 16 + offset + k for byte k, none in RAM mode |
| HexBuffer.StackIsIrrelevant | util/signer/image.cc:213-271 | success, and on success the whole image, do not depend on what the line buffer held before, although the parser reads behind the end of lines |
| HexBuffer.ChunksAreText | util/signer/image.cc:213-214 | the reads take the whole text in order, none empty or longer than the buffer allows, and all but the last stop at a newline or when the buffer is full |
| HexBuffer.LineIsFront | util/signer/image.cc:214-216 | the line of a round is what was read, up to the first terminator, carriage return or newline |
| HexBuffer.RestIsKept | util/signer/image.cc:214-216 | behind what was read the buffer keeps its old content, and in front only line endings become terminators |
| HexBuffer.LoadsSame | util/signer/image.cc:214-216 | what a round reads decides the C string in the buffer |
| Signing.SignedImageIsConsistent | util/signer/image.cc:452-475 | the recorded check words are the hashes of the finished image and of the arrays, the recorded size is its size, and the signed message consists of those hashes |
| Signing.FieldOffsets | util/signer/common/signed_header.h:46-123 | the offsets of the fields in the header |
| SignedBytes.SignsIff | util/signer/publickey.cc:239-260 | sign() succeeds unless the key is private, or public with 64 words, and no signature can be made for the hash of the finished image from the tag on, then the fuse hash, then the info hash |
| SignedBytes.ChecksAreHashes | util/signer/image.cc:447-475 | the check fields of the finished header are the first four bytes of the hashes of the finished image from the tag on, of the fuse array and of the info array, and the size is that of the image |
| SignedBytes.ReaderRecoversSignature | util/signer/publickey.cc:239-275 | for an odd key of header size, Montgomery reduction of the bytes in the finished header gives the signature modulo the key: the one made for the text recomputed from the image, or for any other public key the big-endian number in the prepared field |
| Signing.SignFrame | util/signer/image.cc:434-450 | bytes outside the header never change, header bytes not computed are those prepared, and a failing key leaves the signature field alone |
| Signing.FinalFields | util/signer/image.cc:469-509 | writes after hashing lie below the tag, so nothing that was hashed changes |
| SignedBytes.StoredNumbers | util/signer/image.cc:449-509 | by the weights of their bytes the key field is the modulus and the signature field that signature times 2^3072 modulo the key, as far as 384 bytes go, for every key |
| Signing.RecordedImageHash | util/signer/image.cc:468-475 | the image check is the first word of the hash of the finished image from the tag to its end |
| SignedManifest.ManifestReadsBack | util/signer/codesigner.cc:538-598 | a reader of the finished image and the fuse array recovers the manifest: a name has a value exactly when its bit is set in the header and the array holds that value under its mask |
| SignedManifest.InfosReadBack | util/signer/codesigner.cc:566-598 | the info bitmap in the finished image marks exactly the indices some name spells, and the array holds the xor of their values |
| SignedManifest.RequestCarries | util/signer/codesigner.cc:538-598 | the arrays and bitmaps main hands to sign are those compiled from the manifest, in the right fields |
| SignedManifest.MessageCommits | util/signer/image.cc:452-484 | unless the hash fails to tell them apart, two signed messages are equal exactly when the arrays, the header from the tag on and the bodies are |
| SignedManifest.MessageCommitsToManifest | util/signer/codesigner.cc:538-598 | so images signed for different fuse manifests carry different messages |
| ImageRuns.PipelineReadsBack | util/signer/codesigner.cc:422-605 | load any ELF file that stores something, pad and sign in any order, sign, print, read back: same window and bytes; the recorded size and the image, fuse and info checks match what was read; for a usable key, reducing the signature read gives the raw signature of the message recomputed from what was read; and behind the header each byte is that of the last padding that reaches it or of the ELF file |
| MainImage.MainWrites | util/signer/codesigner.cc:422-605 | for any ELF file that stores something, any padding that leaves an image, and any manifest that compiles, the image main signs carries the file's bounds, the manifest and the checks, and reads back as above, with a usable key id for every odd key of header size |
| MainImage.BoundsInHeader | util/signer/codesigner.cc:431-436 | the bounds in the finished header are those of the image it was prepared from, the executable one with 12 bytes more |
| ImageRuns.RunFrame | util/signer/image.cc:333-348 | over any run of padding and signing each byte outside the header is that of the last padding that reaches it, or the one before the run |
| ImageRuns.RunKeepsReady | util/signer/image.cc:182-191 | after loading, any mix of padding and signing keeps window alignment and the bounds, moving only the end of the image, to 510K as soon as it pads |
| ImageRuns.LoadedIsReady | util/signer/image.cc:182-191 | a load that stores something establishes that invariant |
| ImageRuns.ReadyImage | util/signer/image.cc:469-471 | such an image has room for its header, and survives printing and reading, exactly when it is not empty |
| Padding.PadFrame | util/signer/image.cc:333-339 | padding byte by byte: the little-endian words from size() to 510K, everything else unchanged |
| Padding.PadWords | util/signer/image.cc:335-337 | each four bytes from size() to 510K are the little-endian word for their offset |
| Padding.PaddingIsSafeIff | util/signer/image.cc:333-339 | a nonempty aligned image survives every padding, window and bytes, exactly when it starts at 0 and ends at or below 510K |
| Padding.LoadedImageOverwritten | util/signer/image.cc:335-336 | loaded zeros that lie below 510K, with at least as many bytes in front of them, are all ones after padding with ones |
| Padding.LoadedImageCut | util/signer/image.cc:335-338 | every loaded block of zeros that reaches 512K loses its last 2K to any padding, and is empty afterwards if that was all |
| Xml.FindVal | util/signer/codesigner.cc:55-87 | the recursive search with its early exits computes the lookup function, null dereferences included |
| Xml.GetValIsFirst | util/signer/codesigner.cc:53-87 | when every item can be read and those of this key have a value, the result is the value of the first match in document order, and null exactly when there is none |
| Xml.SearchesInOrderIff | util/signer/codesigner.cc:60-84 | the search returns the first match whatever follows a node, exactly when the first match in the node has a value or is the node itself |
| Xml.HollowTypeIsPassed | util/signer/codesigner.cc:60-84 | with an item of the key but no value, alone in a HashType, the search goes on behind it, so that what it returns is not that first match |
| Xml.ShortItemFaults | util/signer/codesigner.cc:61-66 | an item with fewer than three children is a null pointer as soon as the search reaches it |
| Xml.TextOfList | util/signer/codesigner.cc:65-66 | the content of a list is that of its nodes in order |
| Xml.TextOfNode | util/signer/codesigner.cc:65-66 | a node contributes its text, or what is below an element, and nothing for a comment |
| Xml.ReadableNeverFaults | util/signer/codesigner.cc:61-66 | no null pointer is followed when every item has at least three children |
| FuseScan.AtoiReads | util/signer/codesigner.cc:104-108 | atoi for every way a string can read: white space, at most one sign, digits by their weights, anything behind them |
| FuseScan.AtoiReadsDecimal | util/signer/codesigner.cc:104-108 | the offsets and widths read are the numbers written, with sign, behind white space and up to the first non-digit |
| FuseScan.Scanner.GetFuse | util/signer/codesigner.cc:89-121 | takes a definition into the globals and both maps, stops at a lower offset, or follows a null pointer |
| FuseScan.Scanner.FindFuses | util/signer/codesigner.cc:123-146 | the recursive walk equals a left fold over the nodes in document order |
| FuseTable.ScanNumbersDefinitions | util/signer/codesigner.cc:89-146 | for any document the scan numbers the accepted definitions, every name with the position and width of its first one, and ends as the entry behind them says |
| FuseTable.EndOfIff | util/signer/codesigner.cc:98-114 | the scan is done exactly when some entry goes back, whatever else it lacks, and all before it are taken; it follows a null pointer exactly when an unusable entry comes first |
| FuseTable.AcceptedIsLongestRun | util/signer/codesigner.cc:103-114 | the accepted definitions are the longest prefix of complete ones whose offsets never go back |
| FuseTable.FoldRecordsAccepted | util/signer/codesigner.cc:129-143 | the fold from any running state records exactly that prefix and nothing behind it |
| FuseDocument.DocumentEntries | util/signer/codesigner.cc:53-146 | for documents of the form of the fuse description the entries are those of its HashTypes in order |
| FuseDocument.ShippedDescription | util/signer/fuses.xml:2018-2032 | a description that ends like the shipped one, in a HashType with offset 0 and no width, is numbered in full and ends the scan with success |
| MainTable.GoesOnIff | util/signer/codesigner.cc:514-533 | with a document main goes on exactly when its scan ended at an offset that goes back and either nothing came before it, or there are fewer than 128 names and the first definition of the hardcoded fuse is number 125 and 5 wide |
| MainTable.TableContents | util/signer/codesigner.cc:511-533 | the table then has every accepted name with number and width of its first definition, the hardcoded fuse, and nothing else |
| MainTable.NoDocument | util/signer/codesigner.cc:511-533 | without a document main goes on with the hardcoded fuse alone |
| Manifest.TableStaysInjective | util/signer/codesigner.cc:522-533 | the hardcoded fuse never collides with an id that was read |
| Manifest.CompileFuses | util/signer/codesigner.cc:538-558 | the loop fills array and bitmap as the compile function says, or stops with the first complaint |
| Manifest.FirstVerdictAccepts | util/signer/codesigner.cc:542-551 | the loop completes exactly when every entry passes |
| Manifest.AcceptedIff | util/signer/codesigner.cc:543-551 | an entry passes exactly when its fuse is known, its index is below 128, its width below 64, and its value below 2^width |
| Manifest.FuseValuesExact | util/signer/codesigner.cc:540-557 | each named fuse's word is at its own index and the ignore word everywhere else |
| FuseBits.CompiledIsIgnoreIff | util/signer/codesigner.cc:549-554 | a compiled word equals the ignore word exactly for a full-word fuse with that value |
| FuseLaws.FusesDecode | util/signer/codesigner.cc:538-558 | under its own mask every named entry holds the manifest value, outside it the padding, and unnamed entries hold the ignore word |
| FuseLaws.FusesInAnyOrder | util/signer/codesigner.cc:542-558 | array and bitmap do not depend on the order of the walk |
| FuseLaws.MarkedIffNotIgnored | util/signer/codesigner.cc:553-557 | bits are marked exactly where the array is not ignored, if and only if no full-word fuse has the ignore value |
| FuseLaws.FullWidthFuseLooksIgnored | util/signer/codesigner.cc:543-557 | for every table with a full-word fuse there is a manifest main accepts that leaves the fuse marked and ignored |
| FuseCases.MarkedButIgnored | util/signer/codesigner.cc:511-558 | a description of 126 fuses and a manifest, written out, that go through main with such an entry |
| FuseLaws.CompilationIsInjective | util/signer/codesigner.cc:538-558 | manifests that compile to the same array and bitmap are the same |
| FuseLaws.DocumentToHeader | util/signer/codesigner.cc:511-558 | so for the ids of every document, through the checks of main |
| Bitmap.MarkSetsOneBit | util/signer/common/signed_header.h:33-41 | marking sets the one bit of an index and keeps the other 127 |
| InfoValues.CompileInfos | util/signer/codesigner.cc:566-577 | the loop computes the info array and bitmap, and completes exactly when every name spells an index below 128 |
| InfoNames.CompilesIff | util/signer/codesigner.cc:571-572 | a manifest whose names spell numbers in the int range compiles exactly when all of them lie in 0 to 127 |
| InfoNames.InfosByNumber | util/signer/codesigner.cc:566-577 | entry i is then the ignore word xor the values given for the number i, and bit i is newly set exactly when the manifest names it |
| InfoNames.OneNumber | util/signer/codesigner.cc:571-576 | a single name n compiles exactly when n < 128, and puts its value at entry n and sets bit n |
| InfoNames.OtherNumbers | util/signer/codesigner.cc:571-576 | and leaves every other entry and bit alone |
| InfoNames.WrongNumberAborts | util/signer/codesigner.cc:571-572 | one name that spells a negative number or one from 128 on aborts any manifest |
| InfoNames.IndexReads | util/signer/codesigner.cc:571 | the index of any name, from its white space, sign, digits and the rest |
| InfoValues.InfosInAnyOrder | util/signer/codesigner.cc:570-577 | in any order, entry i is the ignore word xor all values whose name reads as i, and bit i is set exactly when some name does |
| InfoValues.InfoDecodes | util/signer/codesigner.cc:571-574 | a value can be read back when no other name spells its index |
| InfoValues.InfoIgnoredIff | util/signer/codesigner.cc:568-574 | an entry equals the ignore word exactly when the values given for it cancel |
| InfoValues.InfoMarkedIffNotIgnored | util/signer/codesigner.cc:566-577 | bits are marked exactly where the info array is not ignored, if and only if the values of no named index cancel |
| InfoValues.TwoNamesCancel | util/signer/codesigner.cc:571-576 | the names 1 and 01 with any equal values leave a marked entry that looks ignored |

## Left out

- File, ELF, XML and JSON library input and output: opened files, parsed headers, node trees, manifest entries and text lines are inputs.
- The hash and the RSA backend: SHA-256 is any function to 32 bytes, the raw signature any function of the message; a failing backend is a missing result.
- The header fields main fills from the manifest (versions, tag, board id, timestamps) and the key id override: they are part of the header that main's own fields are put into.
- The default register lookup that readXML adds for the p4cl check: the same document walk as the fuse scan with a simpler action.
- MainTable.GoesOnIff: speaks of the fuse scan and its asserts only; main also stops when that lookup fails or the p4cl values differ.
- The USB key protocol, AES and ECDH helpers, option parsing, verbose output, the binary output format and the randomize function.
- The hashes file that sign writes for later signing.
- Memory allocation failures of the big number library and a zero modulus.
- Null pointers: following one is an aborted scan or a faulting lookup, after which nothing is claimed.
- Xml.GetValIsFirst: requires every item to have three children, because the search would follow a null pointer otherwise, and a value in items of the key, because the law is false without; the lookup function itself covers every tree.
- FuseScan.Scanner.GetFuse: atoi is modelled on unbounded integers, because numbers outside the int range are undefined in C.
- Manifest.CompileFuses: a width of 64 or more is a verdict of its own, because the shift is undefined there.
- Image.Image.FromElf: requires a file that holds the magic word and the bytes of the segments it loads, because the source reads its buffer unchecked.
- Image.Image.LoadSegments: requires the file to hold the bytes of the segments that are kept, for the same reason.
- Image.Image.LoadSegment: requires the file to hold the bytes of the segment if it is kept, for the same reason.
- Image.Image.FillPattern: requires a window that is not inverted, because the source would write in front of its memory.
- Image.Image.FillRandom: requires a window that is not inverted, for the same reason.
- Image.Image.Sign: requires an image with room for its header, because the hashed size would be negative otherwise.
- Image.Image.PrepareHeader: requires an image with room for its header, because the copy would leave the image.
- Image.Image.NextLine: the buffer size is 8192, the BUFSIZ of the platform's C library.
- FLASH_END: the dauntless option is still false when this constant is initialised, so only the 512K value is modelled.
