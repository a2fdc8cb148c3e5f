# convert_to_webp — a Dafny model of the `convert` command

`convert` is the one command of a small Python script (`main.py`). It
collects the JPEG and PNG files of a directory and saves each one as WebP at
a chosen quality. Before saving, it normalises the image's colour mode. It
counts successes and failures, and it exits with status 1 when any file
failed. This project models that command in four Dafny modules:

- `Wrappers` (`wrappers.dfy`): `Result`. The script's exceptions are modelled with it as values.
- `ColourMode` (`colour_mode.dfy`): the mode-normalisation decision table of lines 63-74, as pure functions with lemmas about it.
- `FileNames` (`file_names.dfy`): the six-extension set and the collection loop of lines 39-44, plus `pathlib`'s suffix, stem and `with_suffix` rules that name the output (line 58).
  - The collection loop is a method that loops over the extension set.
  - Each glob is modelled as a filter over the directory's entry names.
- `Converter` (`converter.dfy`):
  - the per-file step (lines 56-84) as a function;
  - the loop with its two counters (lines 52-84) as a method with invariants;
  - the exit-status rule (lines 46-48, 89-91);
  - the whole command as a method that returns its status instead of exiting.

The image library stays abstract. Two function parameters stand in for it:
- `decode` maps a file name to an `Image` (its mode string and whether its info declares `"transparency"`) or to an error message.
- `encode` maps a file name and a `SaveRequest` (output name, mode, quality) to `Saved` or to a `SaveError` with its message. The file name is an argument because the outcome depends on that file's pixel data. So two files with the same output name and mode can still get different outcomes.

The directory is a sequence of entry names.

Choices made where the code leaves things open:
- **Extension order.** Python iterates the extension set in an unspecified order. The model picks each next extension with `:|` from the remaining set. The collected list is therefore specified up to reordering: its multiset equals the directory's image names.
- **Suffix rule.** `pathlib` treats a name's last dot as starting the suffix only when that dot is neither the first nor the last character. This is the rule of CPython up to 3.13. So a hidden file named `.png` has no suffix, and its output is `.png.webp`.
- **Output collisions.** Names that differ only in their image extension, such as `photo.jpg` and `photo.png`, map to the same output (`photo.webp`). The lemma `OutputNamesCollide` states this; the later save overwrites the earlier one.
- **Alpha policy.** `main.py` keeps RGBA and LA images as they are, with no flattening onto white, and it collects all six extensions. The image library's other alpha modes (PA and the premultiplied RGBa and La) are not in the keep list, so they fall through to the RGB conversion and lose their alpha. So does the key colour declared by a `"transparency"` entry of an L, I or RGB image. `TransparencyDroppedOutsidePalette` states this.
- **Dead test.** In line 73, `"RGBA"` in `not in ["RGB", "RGBA"]` can never be reached, because line 63 already handled RGBA. The model keeps the test as written.

## Model

| member | source | states |
|---|---|---|
| ColourMode.Normalisation | main.py:63-74 | no conversion is applied exactly when the mode is RGB, RGBA or LA; any conversion targets RGB or RGBA |
| ColourMode.EncodedMode | main.py:63-77 | the mode handed to the encoder is always RGB, RGBA or LA, and an encodable mode is passed through unchanged |
| ColourMode.AlphaModesKept | main.py:63-66 | RGBA and LA images are left unchanged, whatever the transparency flag |
| ColourMode.PaletteDecision | main.py:67-72 | a palette image becomes RGBA when its info carries "transparency" and RGB otherwise |
| ColourMode.OtherModesBecomeRgb | main.py:73-74 | RGB is kept; every mode other than RGB, RGBA, LA and P is converted to RGB |
| ColourMode.TransparencyOnlyMattersForPalette | main.py:67-69 | the "transparency" entry changes the decision for palette images and for no other mode |
| ColourMode.AlphaPreserved | main.py:63-74 | the saved image has an alpha channel (any of RGBA, LA, PA, RGBa, La) exactly when the input was RGBA or LA, or a palette image declaring transparency; alpha is never added |
| ColourMode.TransparencyDroppedOutsidePalette | main.py:73-74 | every mode other than RGBA, LA and P is saved as opaque RGB: PA, RGBa and La lose their alpha, and a declared transparency key colour is dropped |
| ColourMode.NormalisationIdempotent | main.py:63-74 | a normalised mode is a fixed point: normalising twice equals normalising once, for any flag |
| FileNames.Matching | main.py:42-44 | the filtered listing holds each entry with a matching extension as often as the listing does, and nothing else |
| FileNames.Glob | main.py:44 | one glob keeps exactly the entries ending with its extension, with their multiplicity |
| FileNames.ExtensionsExclusive | main.py:39 | under case-sensitive matching no name ends with two different extensions of the set |
| FileNames.ExtensionShape | main.py:39 | each extension is four or five characters long: a dot, then characters none of which is a dot, ending in g or G |
| FileNames.GlobStep | main.py:43-44 | appending the glob of a not-yet-used extension adds exactly the entries no earlier glob matched |
| FileNames.CollectImageFiles | main.py:39-44 | whatever order the extension set is iterated in, the collected list is a permutation of the image names of the directory: a name is collected iff it ends with one of the six extensions, once per listing, so a directory without duplicates yields no duplicates |
| FileNames.ImageNameNotEmpty | main.py:39-44 | every collected name is non-empty, so deriving its output name cannot raise |
| FileNames.LastIndexOf | main.py:58 | the result is the position of the last occurrence of the character, or -1 when there is none |
| FileNames.LastIndexOfUnique | main.py:58 | the last position holding the character is the only value the search can return |
| FileNames.Suffix | main.py:58 | the suffix is non-empty exactly when the name's last dot is neither its first nor its last character, and then it is the part of the name from that dot on |
| FileNames.Stem | main.py:58 | stem followed by suffix gives back the name; a non-empty name has a non-empty stem |
| FileNames.WithSuffix | main.py:58 | replacing the suffix keeps the stem and makes the new suffix the name's suffix |
| FileNames.WebpName | main.py:58 | the output name has suffix .webp and the same stem as the input |
| FileNames.LastDotOfImageName | main.py:58 | in a name ending with a dot-extension, the last dot is the one that starts the extension |
| FileNames.ReplaceExtension | main.py:58 | the output name is the name without its extension followed by .webp, or the name followed by .webp when the name is the bare extension |
| FileNames.ImageWebpName | main.py:58 | for a collected name the matched extension is the suffix replaced by .webp, and the output name differs from the input name |
| FileNames.OutputNamesCollide | main.py:58 | for a non-empty stem, the stem followed by any two of the six extensions maps to the same output name, the stem followed by .webp |
| Converter.ConvertOne | main.py:55-84 | a file fails at open exactly when decoding fails; otherwise one save is requested, with the derived .webp name, the normalised mode and the given quality, and the file counts as converted exactly when the save of that file succeeds |
| Converter.CountsPartition | main.py:52-84 | every report is counted exactly once, as converted or as an error |
| Converter.FailedCountPositive | main.py:82-91 | the error count is positive exactly when some file failed |
| Converter.AllConvertedIffNoFailure | main.py:80-91 | all files were converted exactly when the error count is zero |
| Converter.ConvertFiles | main.py:52-84 | each file gets one report, which depends on that file alone, so a failure never stops later files; the counters equal the numbers of successes and failures and sum to the number of files |
| Converter.ExitStatus | main.py:89-91 | the status is 0 or 1; it is 1 exactly when some file failed, and 0 when no file was found |
| Converter.Convert | main.py:17-91 | with no image found the command attempts nothing and returns 0; otherwise every collected file is converted independently, every save gets the same quality in 1..100, the counters sum to the number found, and the status is 1 exactly when some file failed |

## Left out

- Image decoding, `Image.convert` and WebP encoding (including `optimize=True`): these are foreign library calls. They are the abstract `decode` and `encode` parameters. An error raised by `Image.convert` is counted as part of the save outcome.
- Closing the image when the `with` block ends: an error raised there is not modelled.
- Argument parsing: the checks that the directory exists, is a directory and is readable, and the bounds on `--quality`, belong to the CLI library. The quality bounds are a precondition of `Convert`.
- Filesystem globbing: the model does not cover case-insensitive file systems, where `*.jpg` and `*.JPG` can match the same file twice. It also treats directories whose names end in an extension as ordinary entries, and takes the listing order as given.
- Console messages, the choice between stdout and stderr, and process termination: `convert` returns its status instead of calling `sys.exit`, and the per-file message lines become `FileReport` values.
- Writing the output file: an existing `.webp` file is overwritten, and writes are not atomic. This is filesystem I/O.
- FileNames.WithSuffix: it requires a single-dot suffix (a dot, then at least one character, then no further dot). `pathlib` also accepts an empty suffix and multi-dot suffixes such as `.tar.gz`, and it raises for malformed ones. None of that is modelled, because the script only ever passes `.webp`.
- FileNames.Suffix: it follows CPython up to 3.13, not the trailing-dot rule of later versions. No collected name ends in a dot, so the output names are the same either way.
