# DualBootPatcher: a verified model of its core

DualBootPatcher lets several Android systems share one device. This project models the parts of it whose
correctness is hard to see from the code alone, and proves what they promise.

- **Boot images** (`Bytes`, `Intermediate`, `AndroidFormat`, `AndroidLayout`, `BumpFormat`, `LokiPatcher`, `LokiFormat`,
  `LokiPage`, `LokiRoundTrip`, `LokiLayout`, `LokiExamples`, `MtkFormat`, `MtkLayout`, `SonyElfFormat`, `SonyElfMagic`,
  `SonyElfLayout`, `BootImage`, `BootImageExamples`). Five formats load into and are created from one mutable
  intermediate value. Each encoder and loader is a method over byte vectors, proved against a function of its input; the
  theorems are about these functions: byte-exact round trips, alignment, the confinement of Loki's in-place patches, and
  the agreement of the ordered format detection with the encoders. The layout modules say the same in literal offsets and words, without these functions. Within the limits
  named under "Left out", the theorems say on the inputs exactly which images come back; `LokiExamples`,
  `BootImageExamples` and `SonyElfFormat` show images that do not.
- **Updater scripts** (`EdifyTokenizer`, `EdifyRoundTrip`, `EdifyQuoting`, `StandardPatcher`, `StandardPatcherCalls`,
  `StandardPatcherLaws`, `StandardPatcherIdempotence`, `StandardPatcherText`). The tokenizer is lossless; the rewriter
  edits a token vector in place through moving positions. It terminates and keeps everything outside what it replaces at
  its parenthesis depth. On tokens, a second pass changes nothing exactly for settled scripts, in which no bare name
  captures a replacement and no edited argument changes again. The text written out is read back as the rewritten tokens
  exactly if no edited argument's new text ends in an odd number of backslashes; then patching the text again changes
  nothing exactly for settled scripts, too.
- **ROM switching** (`Switcher`, `PropertyFile`, `SwitcherRuns`, `KernelRestore`, `ForcedSwitch`). Images are read, hashed,
  checked and flashed. Over whole runs, mixed with edits of image files by anybody at any time, unforced flashes only
  write what the recorded checksum covers, refused switches leave no trace, a saved kernel comes back, and a forced switch
  records what later switches check.
- **Supporting state** (`CpioFile`, `InitRc`, `InitRcLines`, `DaemonFiles`, `Mntent`, `AppSync`, `MountFstab`). The cpio
  entry list refines a map, the init.rc rewriter only inserts, the daemon's file ids are never reissued and its
  descriptors never leak, mount entries survive printing and parsing, SELinux rules are copied as a union, pattern lists
  split in one way only.

Reads past the end of an input, which C++ leaves undefined, are outcomes of their own (`OutOfBounds`, `Unknown`,
`LoadUndefined`), and 32-bit sums wrap explicitly. SHA-1 and SHA-512 are parameters of the functions that use them.

Where the code differs from its documentation, or from what a caller would expect, the model follows the code:

- Board name and command line come back as their first 15 and 511 bytes up to a NUL; the class documentation says 16 and 512.
- `BootImage::load` leaves a partly filled object behind when it fails; the documentation warns of it.
- Rewriting the tokens of an updater script twice is not always rewriting them once, nor is rewriting `/init.rc`: both
  exceptions are characterised exactly and shown on a concrete input.
- `EdifyTokenString` leaves backslashes as they are when it quotes a text, so the text of a patched script need not tokenize
  to the rewritten tokens, or at all: when it does is characterised exactly, and a script that is refused is shown.
- `LokiFormat::createImage` accepts a second bootloader image although the Loki layout has no place for it.

## Model

| member | source | states |
|---|---|---|
| AndroidFormat.SkipPaddingReachesBoundary | libmbp/bootimage/androidformat.cpp:295-305 | the mask arithmetic yields the least padding that reaches the next multiple of every allowed page size |
| AndroidFormat.StringFieldRoundTrip | libmbp/bootimage/androidformat.cpp:200-204 | a name or command line written to its fixed field and read as a C string is the original cut to the field size less one, at the first NUL |
| AndroidFormat.TruncatedIsIdentity | libmbp/bootimage/androidformat.cpp:200-204 | a NUL-free string that fits its field comes back unchanged |
| AndroidFormat.HeaderRoundTrip | libmbp/bootimage/androidformat.cpp:317-355 | the 608 header bytes at the start of a file read back as the header they were written from |
| AndroidFormat.UpdateSha1Hash | libmbp/bootimage/androidformat.cpp:144-179 | the hash is fed images and sizes in the order of the code: the second size always, the device tree and its size only if there is one |
| AndroidFormat.CreateImage | libmbp/bootimage/androidformat.cpp:181-273 | the appended bytes are the specified image: header and four images, each padded to its page |
| AndroidFormat.FindHeader | libmbp/bootimage/androidformat.cpp:275-293 | the first offset with the magic within the range, or none |
| AndroidFormat.LoadHeader | libmbp/bootimage/androidformat.cpp:307-358 | all header fields are taken over, or the image is rejected |
| AndroidFormat.TakeImage | libmbp/bootimage/androidformat.cpp:75-114 | one image is cut out at the cursor and the cursor moves to the next page, with 32-bit wrap-around |
| AndroidFormat.TakeDeviceTree | libmbp/bootimage/androidformat.cpp:116-136 | a device tree that runs past the end is cut short instead of refused |
| AndroidFormat.LoadImage | libmbp/bootimage/androidformat.cpp:61-142 | the cursor walk loads exactly what the specification cuts out of the file |
| AndroidFormat.SegmentsOnPageBoundaries | libmbp/bootimage/androidformat.cpp:223-269 | every segment of a created image starts on a page boundary and holds its image unchanged |
| AndroidFormat.HeaderIsFirst | libmbp/bootimage/androidformat.cpp:275-293 | the search finds the header of a created image at offset 0 |
| AndroidFormat.CutPadded | libmbp/bootimage/androidformat.cpp:77-102 | cutting at a segment start undoes the padding and moves the cursor to the next segment |
| AndroidFormat.ImagesOfAssembled | libmbp/bootimage/androidformat.cpp:61-142 | the four images of an assembled file come back whatever is appended to it |
| AndroidFormat.RoundTrip | libmbp/bootimage/androidformat.cpp:61-273 | load after create restores images, sizes, addresses, page size and truncated strings, for every appended tail |
| AndroidFormat.RoundTripBehind | libmbp/bootimage/androidformat.cpp:61-142 | the same for an image that starts up to 512 bytes into the file with no magic in front of it: header and images are read from there |
| AndroidLayout.CreatedOffsets | libmbp/bootimage/androidformat.cpp:144-273 | a created image by literal offsets: each header field at its place, the hash over images and sizes in this order, each image from its page on and zeros behind it |
| AndroidLayout.LoadedOffsets | libmbp/bootimage/androidformat.cpp:307-358 | a header at any offset is refused exactly if its page size is none of the seven, and otherwise fills each field from its own offset |
| AndroidLayout.BoundsTest | libmbp/bootimage/androidformat.cpp:82-87 | an image is taken exactly if it ends within the file; only a 32-bit end that has wrapped around reads past it |
| AndroidLayout.LoadsCutShort | libmbp/bootimage/androidformat.cpp:61-142 | a created image that was cut short loads with what is left of its device tree, and is refused if an earlier image is cut |
| AndroidFormat.CreateIsStable | libmbp/bootimage/androidformat.cpp:181-273 | creating again from the loaded value gives the same bytes |
| Bytes.AndLowMask | libmbp/bootimage/androidformat.cpp:295-305 | a bitwise and with 2^k - 1 is the remainder modulo 2^k |
| Bytes.PageSizesArePowers | libmbp/bootimage/androidformat.cpp:321-333 | the accepted page sizes are exactly the powers of two from 2^11 to 2^17 |
| Bytes.AndNotPageMask | libmbp/bootimage/lokipatcher.cpp:218-219 | a bitwise and with the complement of a page mask rounds down to a page |
| Bytes.WordInPlace | libmbp/bootimage/androidformat.cpp:307-358 | a little-endian word inside a larger buffer reads back as written |
| BumpFormat.PatchImage | libmbp/bootimage/bumppatcher.cpp:30-33 | exactly the magic is appended |
| BumpFormat.CreateImage | libmbp/bootimage/bumpformat.cpp:99-112 | the result is the Android image followed by the magic |
| BumpFormat.IsValid | libmbp/bootimage/bumpformat.cpp:37-97 | the step by step walk decides as specified, including reads past the end |
| BumpFormat.WalkEndsAtTheEnd | libmbp/bootimage/bumpformat.cpp:54-92 | the walk over the size fields of an assembled image ends exactly at its end |
| BumpFormat.RecognisedBySignature | libmbp/bootimage/bumpformat.cpp:37-97 | an assembled image with a tail is a Bump image exactly if the tail starts with the magic |
| BumpFormat.WalkBehind | libmbp/bootimage/bumpformat.cpp:54-92 | the walk starts from where the header was found: behind a prefix it ends at the end of the image, too |
| BumpFormat.RecognisedBehind | libmbp/bootimage/bumpformat.cpp:37-97 | the same test for an image that starts up to 512 bytes into the file |
| BumpFormat.RoundTrip | libmbp/bootimage/bumpformat.cpp:99-112 | the magic does not change what is loaded |
| LokiPatcher.PatchShellcode | libmbp/bootimage/lokipatcher.cpp:111-132 | the in-place scan over the patch buffer computes the specified scan |
| LokiPatcher.FilledExactly | libmbp/bootimage/lokipatcher.cpp:111-132 | the scan fills in header and ramdisk address correctly exactly if the header address does not start with the byte 0xee or the ramdisk address is the placeholder itself |
| LokiPatcher.FilledWhenDistinct | libmbp/bootimage/lokipatcher.cpp:111-132 | both placeholders are found and replaced, each once |
| LokiPatcher.FilledTooEarly | libmbp/bootimage/lokipatcher.cpp:111-132 | a header address starting with 0xee makes the scan write the ramdisk address to the wrong place |
| LokiPatcher.ShellcodeForTarget | libmbp/bootimage/lokipatcher.cpp:52-132 | for each table entry only bytes 56 to 63 of the shellcode change, to the two addresses |
| LokiPatcher.GuessIsRightButForViper | libmbp/bootimage/lokipatcher.cpp:52-101 | the loader's guess of the fake size equals the patcher's for every table entry except the LG Viper |
| LokiPatcher.AlignIsPadding | libmbp/bootimage/lokipatcher.cpp:259-272 | rounding up with the mask agrees with the padding of the Android format |
| LokiPatcher.LocateCheckSigs | libmbp/bootimage/lokipatcher.cpp:146-174 | the address of the first match of one of five patterns, else of the sixth; address 0 counts as no match |
| LokiPatcher.CheckSigsAreFound | libmbp/bootimage/lokipatcher.cpp:146-174 | an address satisfies the description by the six literal patterns exactly if the search yields it: the least match of one of the first five, whatever the sixth does, unless its address is 0; then that of the sixth, or 0 |
| LokiPatcher.TargetIsNamed | libmbp/bootimage/lokipatcher.cpp:138-193 | the bootloader is the first table entry with the address described by the patterns in its whole pages, and unknown if no entry has it |
| LokiExamples.FirstPatternWins | libmbp/bootimage/lokipatcher.cpp:149-174 | a concrete LG Viper bootloader that also holds the sixth pattern is known by the first |
| LokiPatcher.LookUpTarget | libmbp/bootimage/lokipatcher.cpp:181-193 | the first table entry with the located address, or none |
| LokiPatcher.WriteLokiHeader | libmbp/bootimage/lokipatcher.cpp:198-219 | magic, build name and the original sizes and address are stored at 0x400, nothing else changes |
| LokiPatcher.RedirectHeader | libmbp/bootimage/lokipatcher.cpp:227-244 | kernel size, ramdisk size and ramdisk address are redirected in the header |
| LokiPatcher.PatchedHeaderWords | libmbp/bootimage/lokipatcher.cpp:198-244 | what each header word and Loki field holds afterwards; the magic and the rest of the page are untouched |
| LokiPatcher.BuildShellcode | libmbp/bootimage/lokipatcher.cpp:221-225 | the filled shellcode, and whether both placeholders were found |
| LokiPatcher.AssembleLoki | libmbp/bootimage/lokipatcher.cpp:246-318 | the output is header page, kernel, ramdisk, spliced bootloader code with the shellcode over it, device tree; every bounds test with its 32-bit sum |
| LokiPatcher.PatchImage | libmbp/bootimage/lokipatcher.cpp:134-321 | the whole in-place patch equals its specification, with every error exit |
| LokiFormat.CreateImage | libmbp/bootimage/lokiformat.cpp:98-111 | the image is created as Android and patched; a second bootloader image is accepted and goes in front of the device tree |
| LokiFormat.IsValid | libmbp/bootimage/lokiformat.cpp:45-56 | the two magics decide as specified |
| LokiFormat.FindRamdiskAddress | libmbp/bootimage/lokiformat.cpp:350-379 | the address behind the first copy of the shellcode, or the ramdisk address of old images |
| LokiFormat.LoadNewImage | libmbp/bootimage/lokiformat.cpp:113-166 | kernel, ramdisk and device tree are cut out by the stored sizes and the guessed fake size |
| LokiLayout.NewStyleLoads | libmbp/bootimage/lokiformat.cpp:58-166 | a new-style image whose header stands up to 32 bytes into the file: its parts are cut out at literal offsets from the start of the file, the header words from the header |
| LokiFormat.OldFindGzipOffset | libmbp/bootimage/lokiformat.cpp:236-306 | the search ends and returns the first gzip header with a file name, else the first with no flags, else 0 |
| LokiFormat.SearchGzip | libmbp/bootimage/lokiformat.cpp:236-306 | the collected offsets are exactly the matches, in order |
| LokiFormat.OldFindRamdiskSize | libmbp/bootimage/lokiformat.cpp:308-348 | the size heuristic as written |
| LokiFormat.LoadOldImage | libmbp/bootimage/lokiformat.cpp:168-234 | the recovery of old images as written, with its error exits |
| LokiLayout.OldStyleLoads | libmbp/bootimage/lokiformat.cpp:168-348 | an old-style image: kernel size from 0x2c bytes into the kernel, ramdisk from the gzip header to the last non-zero byte, ramdisk address from the shellcode or derived from the kernel address |
| LokiFormat.LoadImage | libmbp/bootimage/lokiformat.cpp:58-96 | the choice between new and old images and the header fields both restore |
| LokiRoundTrip.PatchedLayout | libmbp/bootimage/lokipatcher.cpp:198-318 | confinement: the created image is the patched header page followed by kernel, ramdisk, spliced code and as many bytes of the pages of second image and device tree as the device tree has, each byte-identical but for the shellcode inside the spliced code |
| LokiLayout.CreatedOffsets | libmbp/bootimage/lokipatcher.cpp:198-318 | a created image by literal offsets: the redirected header words, the Loki header at 0x400, kernel, ramdisk, the spliced code with the two addresses in its shellcode, the device tree |
| LokiRoundTrip.LoadOfCreated | libmbp/bootimage/lokiformat.cpp:58-166 | what loading a created image with kernel, ramdisk and a recorded ramdisk address other than 0 gives, with or without second image, from the inputs: the word that is taken for the ramdisk address and the guessed fake size decide |
| LokiPage.CopiesInPage | libmbp/bootimage/lokipatcher.cpp:198-244 | no copy of the shellcode starts in the patched header page, except at one seam, where a command line that fills its field runs into the hash |
| LokiPage.SeamNeedsLongCmdline | libmbp/bootimage/androidformat.cpp:200-204 | the seam needs a command line of at least 511 bytes |
| LokiRoundTrip.WordOfCreated | libmbp/bootimage/lokiformat.cpp:350-379 | where the loader finds the first copy of the shellcode in a created image and which word it takes behind it, computed from header, images and bootloader code |
| LokiRoundTrip.TakenForOldStyle | libmbp/bootimage/lokiformat.cpp:89-95 | the remaining created images, with kernel, ramdisk or recorded address missing, are loaded by the heuristics for old images |
| LokiRoundTrip.DeviceTreeRead | libmbp/bootimage/lokiformat.cpp:113-166 | which device tree comes back in each case: the written one, or for the LG Viper what the bootloader code and the written one hold from 0x200 bytes into the code on |
| LokiRoundTrip.CreatedExactly | libmbp/bootimage/lokipatcher.cpp:134-318 | a Loki image is created exactly if the bootloader is a known one and holds all of the code that is spliced in |
| LokiRoundTrip.RoundTrip | libmbp/bootimage/lokiformat.cpp:98-166 | create then load restores everything for each known bootloader without a second image, without the seam and without a copy of the shellcode in kernel, ramdisk or the code in front of the patcher's own; for the LG Viper without a device tree |
| LokiRoundTrip.RoundTripExactly | libmbp/bootimage/lokiformat.cpp:58-166 | exactly when everything comes back, for every bootloader in the table, on the inputs: no second image, a ramdisk address that is not 0 and is the word behind the first copy of the shellcode in images and code (or behind the seam), and on the LG Viper a device tree equal to the bootloader code in its place |
| LokiRoundTrip.KernelTakenForShellcode | libmbp/bootimage/lokiformat.cpp:350-379 | a kernel that starts with the code of the shellcode gives its own word for the ramdisk address, so the image does not come back unless they are equal |
| LokiExamples.ShellcodeInKernelLoses | libmbp/bootimage/lokiformat.cpp:350-379 | a concrete image with the shellcode in its kernel that is created and refused when loaded |
| LokiExamples.SeamLoses | libmbp/bootimage/lokiformat.cpp:350-379 | a concrete command line and hash at whose seam the loader finds the shellcode, so that it refuses the image |
| LokiRoundTrip.SecondImageIsLost | libmbp/bootimage/lokipatcher.cpp:299-314 | a second bootloader image does not come back, and the device tree that does is cut from its pages |
| LokiExamples.SecondImageLoses | libmbp/bootimage/lokipatcher.cpp:299-314 | a concrete image with second image and device tree that is created but does not come back |
| LokiRoundTrip.RamdiskAddressSurvives | libmbp/bootimage/lokiformat.cpp:350-379 | loading succeeds exactly if the word behind the first shellcode copy, computed from the inputs, is not zero; that word becomes the ramdisk address |
| LokiRoundTrip.ViperLosesDeviceTree | libmbp/bootimage/lokipatcher.cpp:98 | on the LG Viper the device tree is read from 0x200 bytes into the spliced code on, and an image whose device tree differs from that does not come back |
| LokiExamples.ViperLoses | libmbp/bootimage/lokipatcher.cpp:98 | a concrete LG Viper image whose device tree of one byte is lost |
| MtkFormat.UpdateSha1Hash | libmbp/bootimage/mtkformat.cpp:194-239 | the hash covers the images with their MTK headers |
| MtkFormat.CreateImage | libmbp/bootimage/mtkformat.cpp:241-377 | MTK headers are put back with the image size in them; a header of another size is refused |
| MtkFormat.AppendImage | libmbp/bootimage/mtkformat.cpp:321-372 | one image with its optional header and padding is appended |
| MtkFormat.LoadImage | libmbp/bootimage/mtkformat.cpp:118-192 | MTK headers are stripped off kernel and ramdisk under the conditions of the code, size fields unchanged |
| MtkFormat.IsValid | libmbp/bootimage/mtkformat.cpp:47-103 | the cursor walk to kernel and ramdisk decides as specified |
| MtkFormat.StripWrapped | libmbp/bootimage/mtkformat.cpp:118-192 | stripping undoes wrapping exactly for preserved headers: empty before an image without magic, or 512 bytes with magic and a zero size field |
| MtkFormat.RecognisedByMagic | libmbp/bootimage/mtkformat.cpp:47-103 | an assembled image is an MTK image exactly if kernel or ramdisk start with the magic |
| MtkFormat.RecognisedBehind | libmbp/bootimage/mtkformat.cpp:47-103 | the same test for an image that starts up to 512 bytes into the file |
| MtkLayout.HeadersComeOff | libmbp/bootimage/mtkformat.cpp:118-192 | in literal bytes: which images hold a header, that a kernel may be longer than it says and a ramdisk may not, and which field each part goes to |
| MtkFormat.WrappedRoundTrip | libmbp/bootimage/mtkformat.cpp:118-377 | the Android loader sees the wrapped images in a created MTK image |
| MtkLayout.CreatedOffsets | libmbp/bootimage/mtkformat.cpp:194-377 | a created image by literal offsets: each header in front of its own image with the size at offset 4, header sizes that include it, the hash over both |
| MtkFormat.RoundTrip | libmbp/bootimage/mtkformat.cpp:118-377 | load after create restores images, headers and fields exactly if both headers are preserved |
| MtkFormat.CreateIsStable | libmbp/bootimage/mtkformat.cpp:241-377 | creating again gives the same bytes whatever the raw size fields say |
| SonyElfFormat.CreateImage | libmbp/bootimage/sonyelfformat.cpp:231-462 | the created file is ELF header, program headers, SIN part and segment bodies at the assigned offsets |
| SonyElfFormat.LoadSegment | libmbp/bootimage/sonyelfformat.cpp:160-226 | one program header stores its segment in the field its kind stands for, or fails as the code does |
| SonyElfFormat.LoadImage | libmbp/bootimage/sonyelfformat.cpp:126-229 | the loop over the program headers equals the specified fold |
| SonyElfFormat.CreatedIsRecognised | libmbp/bootimage/sonyelfformat.cpp:60-64 | every created file passes the ident test, whatever is appended to it; cut short it passes exactly down to the length of the ELF header |
| SonyElfFormat.TableIsRead | libmbp/bootimage/sonyelfformat.cpp:160-226 | each program header of a created file reads back as written |
| SonyElfLayout.CreatedEhdr | libmbp/bootimage/sonyelfformat.cpp:251-289 | the words of the ELF header of a created file at their literal offsets, with the entry point and the number of program headers |
| SonyElfLayout.CountedSegments | libmbp/bootimage/sonyelfformat.cpp:286-402 | the program headers of kernel, ramdisk and command line in the bytes: type, flags, address twice, size twice, offset, and the body there |
| SonyElfLayout.UncountedSegments | libmbp/bootimage/sonyelfformat.cpp:286-402 | the same for ipl, rpm and appsbl |
| SonyElfLayout.HeaderFills | libmbp/bootimage/sonyelfformat.cpp:160-226 | a program header with the literal type and flags of a kind fills the field of that kind and nothing else; any other type or flags are refused |
| SonyElfLayout.CreatedExactly | libmbp/bootimage/sonyelfformat.cpp:396-420 | a file is created exactly if there is no SIN image, or one of the size in its header that ends in front of offset 4096 |
| SonyElfLayout.SinStands | libmbp/bootimage/sonyelfformat.cpp:404-432 | where the SIN header and image stand in the bytes, and which offset the header says |
| SonyElfLayout.SinFills | libmbp/bootimage/sonyelfformat.cpp:197-221 | a SIN header fills image and header fields, with the two bytes behind the image unless they are missing or both zero |
| SonyElfFormat.CreatedLayout | libmbp/bootimage/sonyelfformat.cpp:412-462 | header area of 4096 bytes, then the bodies, at the offsets in the table |
| SonyElfFormat.RoundTripWithoutSin | libmbp/bootimage/sonyelfformat.cpp:126-462 | without SIN image every counted segment and address comes back, a zero entry point becomes the kernel address, and ipl, rpm and appsbl are lost |
| SonyElfFormat.SinDisplaced | libmbp/bootimage/sonyelfformat.cpp:246-249 | with an uncounted segment, that segment is read in place of the SIN image |
| BootImageExamples.SinIsDisplaced | libmbp/bootimage/sonyelfformat.cpp:246-249 | a concrete image whose ipl image is read in place of its SIN image |
| SonyElfFormat.RoundTripWithSin | libmbp/bootimage/sonyelfformat.cpp:404-437 | with a normal SIN header everything comes back exactly if the SIN image survives its place in front of offset 4096 |
| SonyElfFormat.SinWithRoomSurvives | libmbp/bootimage/sonyelfformat.cpp:404-437 | a SIN image that ends with room before 4096, its two extra bytes if any not both zero, survives |
| SonyElfFormat.ZeroTrailerIsLost | libmbp/bootimage/sonyelfformat.cpp:404-437 | a concrete SIN image that does not survive: its two extra zero bytes are taken for padding |
| SonyElfMagic.NoMagicExactly | libmbp/bootimage/androidformat.cpp:275-293 | exactly when a created Sony file holds no Android magic where it is searched for: no program header whose offset and address, or address and size, spell it, and no SIN part within reach that holds it |
| SonyElfMagic.SmallFilesHideNoMagic | libmbp/bootimage/androidformat.cpp:275-293 | without SIN image no file below 558 MB holds one |
| BootImage.SetKernelImage | libmbp/bootimage.cpp:602-606 | image and size field change together, so agreement of sizes is kept |
| BootImage.SetRamdiskImage | libmbp/bootimage.cpp:643-647 | image and size field change together |
| BootImage.SetSecondBootloaderImage | libmbp/bootimage.cpp:684-688 | image and size field change together |
| BootImage.SetDeviceTreeImage | libmbp/bootimage.cpp:725-729 | image and size field change together |
| BootImage.Load | libmbp/bootimage.cpp:159-200 | the ordered tests choose the loader; types and error flag are set as in the code |
| BootImage.Create | libmbp/bootimage.cpp:254-285 | the encoder of the target type runs and the output vector is replaced only on success |
| BootImage.DetectAssembled | libmbp/bootimage.cpp:159-200 | the ordered tests on any assembled image with a tail |
| BootImage.DetectAndroid | libmbp/bootimage.cpp:180-184 | a created Android image is detected as one unless kernel or ramdisk start with the MTK magic |
| BootImage.DetectBump | libmbp/bootimage.cpp:170-174 | a created Bump image is always detected as one |
| BootImage.DetectMtk | libmbp/bootimage.cpp:175-179 | a created MTK image is detected as one exactly if a magic is there |
| BootImage.DetectSonyElf | libmbp/bootimage.cpp:185-189 | a created Sony image is detected as one exactly if no program header and nothing in the SIN part passes for an Android magic |
| BootImage.DetectLoki | libmbp/bootimage.cpp:163-169 | a created Loki image is detected as one |
| BootImage.AndroidComesBack | libmbp/bootimage.cpp:159-200 | create, detect and load again: type and content are the original ones exactly if neither kernel nor ramdisk starts with the MTK magic |
| BootImage.LokiIsRepackedPlain | libmbp/bootimage.cpp:166-169 | what was loaded from a Loki image is created again as an Android image and detected as one, or as MTK if an image has that magic |
| BootImage.OthersAreRepackedAlike | libmbp/bootimage.cpp:159-200 | images of the other formats are created again in their own format |
| BootImageExamples.AndroidIsTakenForMtk | libmbp/bootimage.cpp:159-200 | a concrete Android image that is detected as an MTK image |
| BootImage.BumpComesBack | libmbp/bootimage.cpp:159-200 | a Bump image always comes back with type and content |
| BootImage.MtkComesBack | libmbp/bootimage.cpp:159-200 | an MTK image comes back exactly if it has at least one header and both are preserved |
| BootImageExamples.MtkHeaderIsLost | libmbp/bootimage.cpp:159-200 | a concrete MTK image whose header does not come back |
| BootImage.LokiComesBack | libmbp/bootimage.cpp:159-200 | exactly when a Loki image comes back with type and content, on the inputs |
| BootImage.SonyElfComesBack | libmbp/bootimage.cpp:159-200 | a Sony image without SIN image comes back exactly if no program header spells the Android magic, and always below 558 MB |
| BootImage.SonyElfWithSinComesBack | libmbp/bootimage.cpp:159-200 | with a normal SIN header and no uncounted segment it comes back exactly if nothing in the headers or the SIN part passes for an Android magic and the SIN image survives its place |
| BootImageExamples.SinPassesForAndroid | libmbp/bootimage.cpp:159-200 | a concrete SIN image that starts with the Android magic: the file is not detected as a Sony image |
| BootImageExamples.HugeKernelPassesForAndroid | libmbp/bootimage.cpp:159-200 | a kernel address and size that spell the magic: the file does not come back |
| EdifyTokenizer.ReadNextToken | libmbp/edify/tokenizer.cpp:374-484 | one step of the tokenizer, keywords first, with its loops for runs and quotes |
| EdifyTokenizer.TokenizeScript | libmbp/edify/tokenizer.cpp:486-518 | the token loop; it fails exactly for an unterminated quote |
| EdifyTokenizer.NextTokenIsLossless | libmbp/edify/tokenizer.cpp:374-484 | a token moves the position forward and generates the text it was read from |
| EdifyTokenizer.LongestKeyword | libmbp/edify/tokenizer.cpp:380-424 | wherever a keyword stands one is taken, and the longest |
| EdifyTokenizer.KeywordTexts | libmbp/edify/tokenizer.cpp:380-424 | the fifteen texts that are keywords |
| EdifyTokenizer.UntokenizeTokenize | libmbp/edify/tokenizer.cpp:486-537 | writing out the tokens of a script gives the script |
| EdifyRoundTrip.TokenizeUntokenize | libmbp/edify/tokenizer.cpp:374-537 | tokenizing the text of tokens that keep apart gives these tokens |
| EdifyRoundTrip.TokenizeExactly | libmbp/edify/tokenizer.cpp:374-537 | a token list is what a text tokenizes to exactly if each token is proper, keeps apart from what follows, and the list writes out the text |
| EdifyQuoting.QuotedDenotes | libmbp/edify/tokenizer.cpp:194-345 | a text comes back from its quoted token exactly if it holds no backslash and no character that is escaped in hex other than NUL |
| EdifyTokenizer.EscapeLetters | libmbp/edify/tokenizer.cpp:242-345 | the character that each escape letter stands for, and back |
| EdifyQuoting.QuotedIsProperExactly | libmbp/edify/tokenizer.cpp:242-475 | a quoted text without quotes is read back as one token exactly if it ends in an even number of backslashes |
| EdifyQuoting.NoInnerQuote | libmbp/edify/tokenizer.cpp:225-475 | a string that was read and denotes something holds no quote inside its quotes |
| EdifyRoundTrip.ReplacementTokens | libmbp/autopatchers/standardpatcher.cpp:51-56 | the filled-in format strings tokenize to exactly the token list that the rewriter inserts |
| StandardPatcherText.ExpressionIsWritten | libmbp/autopatchers/standardpatcher.cpp:51-56 | the replacement in the written text: the format strings filled in with command and mount point |
| StandardPatcher.FindFunction | libmbp/autopatchers/standardpatcher.cpp:103-175 | the first call from a position with its matching parenthesis; an unclosed first call ends the search |
| StandardPatcher.FindClosing | libmbp/autopatchers/standardpatcher.cpp:144-158 | the depth counter finds the matching parenthesis |
| StandardPatcher.ReplaceFunction | libmbp/autopatchers/standardpatcher.cpp:190-226 | the call is erased, the replacement inserted, and the position behind it returned |
| StandardPatcher.FindPartition | libmbp/autopatchers/standardpatcher.cpp:241-280 | the first string argument that names a partition decides |
| StandardPatcher.DecideProgram | libmbp/autopatchers/standardpatcher.cpp:349-428 | only the last string argument decides what a run_program call becomes |
| StandardPatcher.DecideDelete | libmbp/autopatchers/standardpatcher.cpp:443-466 | deleting a whole partition becomes a format |
| StandardPatcher.EditInPlace | libmbp/autopatchers/standardpatcher.cpp:533-659 | string arguments are edited one by one, all other tokens stay |
| StandardPatcher.PatchCall | libmbp/autopatchers/standardpatcher.cpp:708-736 | one pass of the loop body: the whole new vector and the new position |
| StandardPatcherCalls.DecisionIs | libmbp/autopatchers/standardpatcher.cpp:228-466 | the decision for a call is a replacement with a command and a mount point exactly if its name and arguments ask for these: mount for mount, unmount for unmount, format for format and delete_recursive, for run_program by the ending of its last string; /system before /cache before /data |
| StandardPatcherCalls.EditIs | libmbp/autopatchers/standardpatcher.cpp:533-659 | what an edited argument becomes: the first system device it names is replaced throughout, and `system` by itself where block_image_update names it |
| StandardPatcherCalls.ReplacedThroughout | libmbp/private/stringutils.cpp:185-213 | replacing splits the text at every occurrence, each the first after the one before, and joins the parts with the new text |
| StandardPatcher.PassKeepsResult | libmbp/autopatchers/standardpatcher.cpp:693-737 | the part ahead of the position strictly shrinks even when the vector grows, and the result does not change |
| StandardPatcher.PatchTokens | libmbp/autopatchers/standardpatcher.cpp:689-737 | the loop ends and turns the vector into the rewriting of the old one |
| StandardPatcher.PatchScript | libmbp/autopatchers/standardpatcher.cpp:661-751 | scripts with a shebang line stay, unterminated ones are refused, all others become the text of their rewritten tokens |
| StandardPatcherLaws.StructurePreserved | libmbp/autopatchers/standardpatcher.cpp:103-226 | old and new script fall into the same pieces, in order: kept tokens, calls of the three editing names with their string arguments edited one by one, calls of five other names replaced by the command and mount point that their name and arguments ask for; whatever precedes a piece has the same parenthesis depth before and after |
| StandardPatcherLaws.EditedCallDepth | libmbp/autopatchers/standardpatcher.cpp:533-659 | inside an edited call, too, each token stays at its depth |
| StandardPatcherLaws.CallBecomes | libmbp/autopatchers/standardpatcher.cpp:689-737 | every closed call: replaced by run_program of the update binary tool with the command and mount point it asks for, left alone if it asks for none, edited argument by argument, or passed over |
| StandardPatcherLaws.OpenCallEndsIt | libmbp/autopatchers/standardpatcher.cpp:144-165 | a call that is never closed ends the rewriting: all that follows stays |
| StandardPatcherLaws.OthersAreCopied | libmbp/autopatchers/standardpatcher.cpp:103-141 | a token that opens no call is copied |
| StandardPatcherIdempotence.LevelSurvives | libmbp/autopatchers/standardpatcher.cpp:144-165 | rewriting does not change which open parentheses are closed |
| StandardPatcherIdempotence.GeneratedStays | libmbp/autopatchers/standardpatcher.cpp:349-428 | a generated expression is left alone by a further pass |
| StandardPatcherIdempotence.RewritingTwice | libmbp/autopatchers/standardpatcher.cpp:689-737 | on token vectors, rewriting twice is rewriting once exactly for settled scripts: no bare name captures a replacement, no edited argument changes again |
| StandardPatcherIdempotence.CapturesExactly | libmbp/autopatchers/standardpatcher.cpp:711-736 | the names that capture a replacement: mount, unmount and format always, delete_recursive unless it is a data format |
| StandardPatcherIdempotence.EditSettlesExactly | libmbp/autopatchers/standardpatcher.cpp:533-659 | an edited argument, whatever escapes are in it, settles exactly if it was not edited or its new text names no system device, for plain device names |
| StandardPatcherIdempotence.EditSettlesOnText | libmbp/autopatchers/standardpatcher.cpp:533-659 | the same on the old argument: its new text, once quoted, must not denote a text that is edited in turn; if each character survives quoting, that is the new text itself |
| StandardPatcherIdempotence.EditDoesNotSettle | libmbp/autopatchers/standardpatcher.cpp:533-659 | a concrete argument with two device names in it, of which each pass replaces one |
| StandardPatcherIdempotence.SecondPassDiffers | libmbp/autopatchers/standardpatcher.cpp:693-737 | a concrete script that a second pass changes, whatever the devices |
| StandardPatcherText.EditDenotes | libmbp/autopatchers/standardpatcher.cpp:533-659 | an edited argument denotes the replaced text exactly if each character of that text survives quoting |
| StandardPatcherText.ArgReadsExactly | libmbp/autopatchers/standardpatcher.cpp:533-659 | with device names free of backslashes, an edited argument is read back exactly if what it denoted did not end in an odd number of backslashes |
| StandardPatcherText.RewrittenSpaced | libmbp/autopatchers/standardpatcher.cpp:689-751 | rewriting keeps tokens apart, and the script starts as before or with a parenthesis or a quote |
| StandardPatcherText.WrittenReadsBack | libmbp/autopatchers/standardpatcher.cpp:661-751 | the written text of a script tokenizes to the rewritten tokens exactly if every edited argument is read back |
| StandardPatcherText.RewritingShows | libmbp/autopatchers/standardpatcher.cpp:689-751 | a rewriting that changes the tokens of a script changes its text |
| StandardPatcherText.PatchingStays | libmbp/autopatchers/standardpatcher.cpp:661-751 | patching leaves the text of a script as it is exactly if it has a shebang line, or tokenizes and rewriting leaves its tokens |
| StandardPatcherText.PatchingTwice | libmbp/autopatchers/standardpatcher.cpp:661-751 | on texts, patching twice is patching once exactly for scripts with a shebang line and, if every edited argument is read back, for settled ones; otherwise exactly if the tokens of the written text stay |
| StandardPatcherText.UnreadEditIsRefused | libmbp/autopatchers/standardpatcher.cpp:661-751 | a script with an edited argument that is not read back: unless a quote follows the first such argument in the rewritten script, the patched text is refused |
| StandardPatcherText.PatchedIsRefused | libmbp/autopatchers/standardpatcher.cpp:661-751 | a concrete settled script whose patched text is refused: the backslash that two stood for swallows the closing quote |
| Switcher.HexStringInjective | mbtool/util/string.cpp:208-221 | different digests have different texts |
| Switcher.HexDigits | mbtool/util/string.cpp:208-221 | each byte in two lower-case digits, the high one first |
| Switcher.KeyInjective | mbtool/switcher.cpp:67-69 | a ROM id and an image name have a key of their own |
| Switcher.FoundExactly | mbtool/switcher.cpp:60-94 | a checksum is found exactly if the record spells it out behind sha512: |
| Switcher.AnswersExactly | mbtool/switcher.cpp:60-94 | each answer of a lookup in literal texts: nothing under id/image, a digest behind sha512:, or malformed |
| Switcher.FileSays | mbtool/switcher.cpp:60-94 | the line of a checksum file by which an image is known |
| Switcher.ChecksumsUpdate | mbtool/switcher.cpp:104-115 | one record is set |
| Switcher.GetAfterUpdate | mbtool/switcher.cpp:60-115 | an update is found again and leaves every other record alone |
| Switcher.AddExtraImages | mbtool/switcher.cpp:220-276 | the directory loop appends the images that are whitelisted and have a device |
| Switcher.ExtraImagesAreModems | mbtool/switcher.cpp:236-273 | besides the boot image only mdm.img and modem.img are flashed, to existing devices |
| Switcher.ExtraImageExactly | mbtool/switcher.cpp:236-273 | which name and which base directory flash a modem image: its own name, to the first directory that holds its device |
| Switcher.OtherNamesAreSkipped | mbtool/switcher.cpp:236-255 | no other name is flashed |
| Switcher.ListedModemIsFlashed | mbtool/switcher.cpp:220-276 | a listed modem image with a device is flashed, in its turn |
| Switcher.VerifyImages | mbtool/switcher.cpp:350-382 | the verification loop, with the table updated on the way if forced |
| Switcher.FindMissingRecord | mbtool/switcher.cpp:387-392 | some image has no expected hash |
| Switcher.Machine.WriteImages | mbtool/switcher.cpp:395-403 | images are written in order until a write fails |
| Switcher.Machine.SwitchRom | mbtool/switcher.cpp:297-415 | result and whole new state, whatever the reads and writes did |
| Switcher.Machine.SetKernel | mbtool/switcher.cpp:428-498 | result and whole new state, with every failure exit |
| PropertyFile.PropertiesRoundTrip | mbtool/util/properties.cpp:327-389 | a written table reads back the same in whatever order it was walked, for clean keys and values |
| PropertyFile.OtherLines | mbtool/util/properties.cpp:327-369 | comments and lines without = say nothing |
| PropertyFile.ParsedIsClean | mbtool/util/properties.cpp:327-369 | what was read from a file can be written again without loss |
| SwitcherRuns.OutcomeExactly | mbtool/switcher.cpp:278-392 | an invalid checksum wins over a missing one; what each refusal means, in both directions |
| SwitcherRuns.ForcedIsNeverRefused | mbtool/switcher.cpp:365-392 | a forced switch succeeds or fails but is never refused for checksums |
| SwitcherRuns.RefusedTouchesNothing | mbtool/switcher.cpp:350-392 | a refused switch leaves files, devices and table as they were |
| SwitcherRuns.SwitchFlashesVerified | mbtool/switcher.cpp:328-403 | an unforced switch writes exactly the bytes it read, to the right devices, each meeting its record |
| ForcedSwitch.ForcedSwitchRecords | mbtool/switcher.cpp:350-408 | after a successful forced switch with a complete checksum file, the record of each image is the digest of what was read, and every other record is as before |
| ForcedSwitch.ForcedThenUnforced | mbtool/switcher.cpp:297-415 | over runs: after it, an unforced switch to the same images succeeds, whatever happened to other ROMs in between |
| SwitcherRuns.EveryFlashIsVerified | mbtool/switcher.cpp:297-498 | in every run of saves, switches and outside edits, each unforced flash wrote bytes with the recorded digest |
| SwitcherRuns.DevicesFollowFlashes | mbtool/switcher.cpp:297-498 | in every run the devices hold what the flashes left in them and nothing else |
| KernelRestore.RunLeavesKept | mbtool/switcher.cpp:297-498 | a saved kernel, its record and its device size survive every run that leaves its file alone |
| KernelRestore.SaveExactly | mbtool/switcher.cpp:428-498 | set_kernel succeeds exactly if everything could be read and written; then the file of that ROM holds the device, and nothing else changes but the table |
| KernelRestore.SaveRecords | mbtool/switcher.cpp:470-495 | the record it leaves is the digest of the device, and every other record is as before |
| KernelRestore.SavedKernelComesBack | mbtool/switcher.cpp:297-498 | set_kernel, an undisturbed run, then switch_rom without extra images puts the saved bytes back on the boot device |
| KernelRestore.ExchangedKernelIsRefused | mbtool/switcher.cpp:369-381 | if the file was exchanged for one with another digest, the switch is refused and nothing is written |
| CpioFile.SortSorts | libmbp/cpiofile.cpp:237-243 | sorting by name gives an ordered permutation |
| CpioFile.SortedIsUnique | libmbp/cpiofile.cpp:548-578 | with distinct names there is one ordered arrangement only, so the sorting algorithm does not matter |
| CpioFile.CpioArchive.Exists | libmbp/cpiofile.cpp:339-348 | whether an entry has the name |
| CpioFile.CpioArchive.Remove | libmbp/cpiofile.cpp:361-373 | the first entry with the name is erased |
| CpioFile.CpioArchive.Contents | libmbp/cpiofile.cpp:396-408 | the contents of the first entry with the name, or an error |
| CpioFile.CpioArchive.SetContents | libmbp/cpiofile.cpp:418-431 | contents and recorded size change together |
| CpioFile.CpioArchive.AddSymlink | libmbp/cpiofile.cpp:476-506 | a link is added and the list sorted, unless the name is taken |
| CpioFile.CpioArchive.AddFile | libmbp/cpiofile.cpp:548-578 | a file is added and the list sorted, unless the name is taken |
| CpioFile.CpioArchive.Rename | libmbp/cpiofile.cpp:613-629 | the target is looked up before the source; the entry keeps its place |
| CpioFile.ApplyRefines | libmbp/cpiofile.cpp:339-629 | each operation on the list does what it does on a map, and answers the same |
| CpioFile.ListRefinesMap | libmbp/cpiofile.cpp:339-629 | the same for every sequence of operations |
| CpioFile.NamesStayDistinct | libmbp/cpiofile.cpp:339-629 | names stay distinct and recorded sizes right in every sequence of operations |
| CpioFile.AddSorts | libmbp/cpiofile.cpp:476-578 | a successful add leaves the old entries and the new one, sorted; a refused one changes nothing |
| CpioFile.RemoveThenAdd | libmbp/cpiofile.cpp:361-578 | removing and adding a name always succeeds and leaves one entry, with the new contents |
| CpioFile.FirstIsMeant | libmbp/cpiofile.cpp:339-431 | looking up, reading, replacing contents and removing mean the first entry with the name and leave all others |
| CpioFile.RenamesExactly | libmbp/cpiofile.cpp:613-629 | which answer a rename gives: a taken target is reported even if there is no source; only the name of the first source entry changes |
| InitRc.ScanLines | mbtool/init.cpp:296-314 | the first pass computes both flags |
| InitRc.AddMbtoolServices | mbtool/init.cpp:269-340 | both passes give the specified text |
| InitRcLines.ScanFinds | mbtool/init.cpp:296-314 | the scan finds a disabled line exactly if one belongs to an installd service: nothing but lines that open no other service stand between |
| InitRcLines.RewrittenIs | mbtool/init.cpp:269-340 | the whole output, line by line, in literal texts: the import before the first line that is no comment, disabled behind each installd line |
| InitRc.OnlyInserts | mbtool/init.cpp:318-336 | without the inserted lines the output is the input, and at most one import is inserted |
| InitRc.OutputSettles | mbtool/init.cpp:296-336 | the output has its import and a disabled installd, unless the insertion is hidden |
| InitRc.RewritingTwice | mbtool/init.cpp:269-340 | a second run changes nothing exactly if not every due insertion is hidden behind a NUL in an unterminated last line |
| InitRc.SecondRunDiffers | mbtool/init.cpp:318-336 | a concrete text on which the second run inserts again |
| DaemonFiles.Daemon.FileOpen | mbtool/daemon_v3.cpp:168-218 | a new id for each opened descriptor, nothing for a failed open |
| DaemonFiles.Daemon.FileClose | mbtool/daemon_v3.cpp:138-166 | the id leaves the table whether or not close succeeds |
| DaemonFiles.Daemon.FileUse | mbtool/daemon_v3.cpp:103-110 | requests on an unknown id are invalid |
| DaemonFiles.AnswersExactly | mbtool/daemon_v3.cpp:103-218 | each answer in terms of the calls made so far: a use reaches the descriptor its id was opened with and that was not closed, a close makes the close call of that one, an open gives an id never given before |
| DaemonFiles.Daemon.CloseAll | mbtool/daemon_v3.cpp:1009-1015 | the end of a connection closes each descriptor in the table once, in any order |
| DaemonFiles.Daemon.ConnectionVersion3 | mbtool/daemon_v3.cpp:1005-1091 | a connection keeps the invariant and ends with nothing open |
| DaemonFiles.RunsAreValid | mbtool/daemon_v3.cpp:76-77 | the invariant holds in every state of every run over any number of connections |
| DaemonFiles.IdsAreNeverReissued | mbtool/daemon_v3.cpp:204-209 | ids are given out as 0, 1, 2, ... and those in the table are below the counter |
| DaemonFiles.TableIsWhatIsOpen | mbtool/daemon_v3.cpp:138-218 | the table holds each open descriptor once, and every close is of an open descriptor under its own id |
| DaemonFiles.NothingLeaks | mbtool/daemon_v3.cpp:1009-1015 | when a connection has ended every id ever given out has been closed exactly once |
| Mntent.IntRoundTrip | libmiscstuff/mntent.c:70-74 | every integer comes back from its decimal text |
| Mntent.PrintReadRoundTrip | libmiscstuff/mntent.c:30-111 | clean entries that fit the buffer, written to an empty table and read until the end, are the same list |
| Mntent.AppendReadRoundTrip | libmiscstuff/mntent.c:30-111 | appended to a table whose lines are ended, such entries are read behind the old ones exactly if reading got to the end of the old table |
| Mntent.EntryComesBackExactly | libmiscstuff/mntent.c:30-111 | an entry that fits comes back exactly if its fields are words without NUL and the line is no comment |
| Mntent.FieldOrder | libmiscstuff/mntent.c:30-111 | a literal line and the field each part of it goes to, read and printed |
| Mntent.CommentsAreSkipped | libmiscstuff/mntent.c:40-50 | comment lines and empty lines are passed over |
| Mntent.ShortLines | libmiscstuff/mntent.c:54-74 | a line needs three fields; missing options are empty and missing numbers 0 |
| Mntent.LongLinesAreCut | libmiscstuff/mntent.c:41-45 | a line that fills the buffer is cut there and the rest is the next line |
| Mntent.TableFile.GetMntent | libmiscstuff/mntent.c:30-77 | the skipping loop and the taking apart of one line, with the new position |
| Mntent.TableFile.AddMntent | libmiscstuff/mntent.c:104-111 | the line is appended at the end wherever the position was |
| AppSync.PolicyDb.CopyAvtabRules | mbtool/appsync.cpp:143-205 | the target type gets the union of permissions and every other rule stays, whatever the slot and chain order |
| AppSync.PolicyDb.Gather | mbtool/appsync.cpp:171-185 | the nested loops collect the allow rules of the source type in walk order |
| AppSync.PolicyDb.AddRules | mbtool/appsync.cpp:187-202 | each collected rule is inserted or added to an existing one |
| AppSync.FoundByKey | mbtool/appsync.cpp:187-190 | with one flag in each rule, looking up overlapping flags finds a rule exactly by its whole key |
| AppSync.AddedIsUnion | mbtool/appsync.cpp:171-202 | adding what was collected gives the union, for every order of the walk |
| AppSync.AllowFlag | mbtool/appsync.cpp:171-185 | the rules that are copied are those with the lowest bit of specified set |
| AppSync.CopyGrants | mbtool/appsync.cpp:143-205 | the rule on the target type allows what the one on the source type does and what it allowed before; other rules stay |
| AppSync.UnionIsUnique | mbtool/appsync.cpp:143-205 | the union determines the result |
| AppSync.CopyTwice | mbtool/appsync.cpp:143-205 | a second copy changes nothing, also when two names stand for one type |
| MountFstab.SplitPatterns | mbtool/mount_fstab.cpp:501-522 | both scans end; the pieces join to the input, hold no comma before a slash, and all but the first start with a slash |
| MountFstab.SplitIsUnique | mbtool/mount_fstab.cpp:501-522 | there is only one such decomposition |
| MountFstab.OneMorePart | mbtool/mount_fstab.cpp:501-522 | the pieces of a list, comma by comma: a part that starts with a slash is a piece of its own, any other belongs to the piece before |

## Left out

- LokiFormat.OldFindRamdiskSize: modelled as written, but no round trip is claimed for old Loki images, since the size is a
  guess that starts in the copied bootloader code and drops the last non-zero byte.
- AndroidFormat.RoundTrip: inputs whose padded total reaches 2^32 bytes are excluded, because the size fields of the format
  cannot describe them; `hdrId` comes back as the hash of the created image, not as it was.
- PropertyFile.PropertiesRoundTrip: holds for keys without '=', newline, NUL and a leading '#' and values without newline
  and NUL; what other entries turn into is not described.
- StandardPatcherIdempotence.EditSettlesExactly: device names that are empty, hold backslashes or unprintable characters, or
  have a part in common with the image path by containing it or being contained in it, are not covered; for these
  `StandardPatcherIdempotence.RewritingTwice` states the condition argument by argument.
- StandardPatcherText.PatchingTwice: when an edited argument is not read back, the condition is about the tokens of the written
  text; `StandardPatcherText.UnreadEditIsRefused` gives one direction on those of the rewritten script.
- SonyElfFormat.RoundTripWithSin: SIN headers of another type, with an offset of their own or with unequal sizes are not covered.
- LokiRoundTrip.LoadOfCreated: images without kernel, ramdisk or recorded address are the subject of `TakenForOldStyle`; what the
  heuristics for old images find is stated by `LokiLayout.OldStyleLoads`, for files that meet its description.
- LokiPatcher.PatchImage: buffers shorter than the Loki header and page sizes that the Android encoder refuses are excluded;
  no caller in the repository passes them.
- LokiFormat.LoadImage: inputs of 4 GiB and more are excluded, since the code keeps offsets in 32 bits.
- LokiFormat.LoadNewImage: the same bound.
- LokiFormat.LoadOldImage: the same bound.
- LokiFormat.FindRamdiskAddress: the same bound.
- LokiFormat.OldFindGzipOffset: the same bound.
- BootImage.Load: the same bound.
- AppSync.PolicyDb.CopyAvtabRules: rules are looked up by their whole key. `avtab_search`, which is not part of this repository,
  also matches keys whose `specified` flags merely overlap; `AppSync.FoundByKey` says that both agree when each rule carries a
  single flag, and rules with several are not covered.
- AppSync.PolicyDb.AddRules: the same lookup.
- Mntent.AppendReadRoundTrip: a table whose last line is not ended, with which the first appended line merges, is not covered.
- KernelRestore.SavedKernelComesBack: `switch_rom` with extra images is covered by the other theorems, not by this one.
- DaemonFiles.Daemon.FileOpen: the counter is unbounded; 2^31 opens in one process would overflow the int.
- Mntent.IntRoundTrip: `atoi` on digits beyond the range of int, which C leaves undefined, yields the mathematical value.
- CpioFile.CpioArchive.AddFile: reading the source file from disk, ownership and time stamps, and the archive format itself
  are not modelled; names are NUL-free.
- Switcher.Machine.WriteImages: a write that makes no progress, which the code repeats forever, and the creation of a
  regular file where a block device is missing are modelled as failed writes.
- The state of an object after a failed load beyond its error flag and types, logging, error texts and header dumps.
- SHA-1, SHA-512, libarchive, libsepol internals, flatbuffers: parameters, maps or left out.
- Vendor and device tables, user interface, C wrappers, command line tools, mounting, forking, chroot and sockets.
- `DirectorySizeGetter`: it records the device number where the inode number is meant, so hard links are not counted as
  the design intends.
- Backup, installer, wiping, and the rest of init, fstab and appsync: they drive external programs.
