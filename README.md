# Kaffesa cargo labels: the pasted-text shipment parser

This project models the core of `index.py`, a Streamlit tool that turns text
pasted from a spreadsheet into cargo labels. The core takes the pasted text and
returns one row per recipient, holding the name, address, phone and cash-on-delivery
payer. The payer is "ÜA" (Ücret Alıcı, the recipient pays) or "ÜG" (Ücret
Gönderici, the sender pays).

- **Segmenter** (`Segmenter`). The text is split before every `DD.MM.YYYY` digit
  pattern, wherever it occurs. The pieces are stripped and blank ones are dropped.
- **Five passes per block**, each rewriting a working copy of the block:
  - `Phone`: the leftmost, longest `\+?\d[\d\s\-\(\)]{8,}\d`.
  - `Payment`: a whole-word, case-insensitive ÜA/UA/ÜG/UG.
  - `Address`: the leftmost, longest run of address characters around Mah, Sok, Cad
    or No.
  - `Name`: the last capitalised run before the first case-sensitive FATURA,
    İRSALİYE or irsaliye.
  - `Fallback`: the leftover text when the address pass found nothing. The leading
    date and the noise words are removed and whitespace runs collapsed.

  The phone, payment, address and name passes replace every occurrence of the
  matched text by a space (`str.replace`).
- **Row filter and loop** (`Parser`). A row is kept only when a name was found. The
  loop is the method `ParseRows`, proved equal to the function `Rows`.
- **Helpers**. `PayToken.NormalizePayToken` folds a token to ÜA, ÜG or nothing.
  `FileName.SanitizeFilename` makes the label's file stem.
- **Payer default** (`FinalPay`). Each row's radio button starts on ÜG exactly when
  the parsed payer is ÜG. `AssignFinalPay` writes `final_pay` into an array of rows
  in place.

Each regular expression is an explicit search over `seq<char>`. A declarative
predicate gives the shape of a match (`PhoneSpan`, `AddressSpan`, `PayTokenAt`,
`DateAt`, `RunSpan`, `MarkerAt`). Lemmas prove that the search returns the leftmost
match and, for greedy patterns, the longest match at that start, as Python's
backtracking engine does. `Strings` holds Python's `str.strip`, `str.replace` and the
whitespace-run substitutions, with their properties.

Points worth noting about the code:

- The date split is not restricted to line starts.
- The phone needs at least eight characters between its first and last digit.
- The name marker is matched case-sensitively.
- `str.replace` removes every occurrence of the matched text, not just the first.
  The replacement is case-sensitive and uses the matched text. So when the token
  matched was lower-case `ua`, the payer pass also blanks the "ua" inside words such
  as "Suat"; a matched `UA` leaves "Suat" alone.
- Line endings are not normalised.
- In the model the address prefix accepts ASCII letters only. Python's
  `re.IGNORECASE` also lets `İ`, `ı`, `ſ` and the Kelvin sign through (see "Left
  out"). For a block such as `07.10.2025 GÖKBERK ÇIRAKOĞLU FATURA NO:123`, which
  holds none of those, the address match therefore starts after `Ğ` and takes
  `FATURA` with it. That leaves the name pass without a marker.
  This follows from the definitions; no lemma states it.

## Model

| member | source | states |
|---|---|---|
| `PayToken.NormalizePayToken` | index.py:42-47 | ÜA comes out exactly when the stripped token is Ü/ü/U/u, then only spaces, then A/a; ÜG exactly when it is Ü/ü/U/u, spaces, G/g; every other value, non-strings included, gives None |
| `PayToken.NormalizeCode` | index.py:44-46 | the canonical codes "ÜA" and "ÜG" normalise to their own payer |
| `PayToken.NormalizeTable` | index.py:42-47 | the eight spellings ÜA üa UA ua / ÜG üg UG ug map to their payer; "", "xyz" and a non-string map to None |
| `PayToken.LowerDropSpaces` | index.py:44 | lower-casing and removing spaces commute: only a space lower-cases to a space |
| `FileName.SanitizeFilename` | index.py:49-51 | the stem is 1 to 60 characters of word characters, `-` or `_`, never whitespace; "etiket" when nothing survives the clean-up |
| `FileName.StemOf` | index.py:50-51 | the cut stem has at most 60 characters, none of them whitespace, and is empty exactly when the cleaned name is |
| `FileName.SanitizeKeepsName` | index.py:49-51 | a non-empty cleaned name gives a stem that starts with its first character and holds only `_` and characters of the name |
| `FileName.SanitizeKeepsText` | index.py:49-51 | apart from `_`, the stem is a prefix of the name's kept non-space characters, and all of them when the cleaned name has at most 60 characters |
| `FileName.SanitizeTwoWords` | index.py:49-51 | two words of stem characters joined by one space, 60 characters at most, come out joined by `_` ("Ali Veli" gives "Ali_Veli") |
| `FileName.SanitizeValidStem` | index.py:49-51 | a stem of at most 60 allowed characters is its own file name |
| `FileName.SanitizeIdempotent` | index.py:49-51 | sanitising a file name a second time changes nothing |
| `Segmenter.SplitBeforeDates` | index.py:145 | the pieces concatenate back to the input, and there is one more piece than positions where a date begins |
| `Segmenter.Blocks` | index.py:146 | every block is non-empty and stripped, and there are at most as many blocks as pieces |
| `Segmenter.SplitSpec` | index.py:145 | the split pieces concatenate back to the input; there is one more piece than date positions; every later piece begins at a date; no date begins inside a piece |
| `Segmenter.EveryDateStartsAPiece` | index.py:145 | every position where a date begins is the start of a piece, so split points are exactly the date positions |
| `Segmenter.BlocksSpec` | index.py:146 | blocks are non-empty and stripped, each is the stripped form of one piece, in piece order; a piece is dropped exactly when it is blank |
| `Segmenter.BlockCount` | index.py:145-146 | the number of blocks is the number of date positions, plus one when the text before the first date is not blank |
| `Segmenter.BlocksEmpty` | index.py:145-146 | empty input yields no blocks |
| `Segmenter.NoDateAtMostOneBlock` | index.py:145-146 | input without any date yields at most one block |
| `Strings.Strip` | index.py:146 | the stripped text has no whitespace at either end and is empty exactly when the input is all whitespace |
| `Strings.StripBounds` | index.py:146 | stripping keeps exactly the text between the whitespace margins |
| `Strings.ReplaceAllLength` | index.py:156 | with a non-empty pattern, a replacement no longer than the pattern never lengthens the text, and a replacement of the same length keeps the length |
| `Strings.ReplaceAllFirst` | index.py:156 | `str.replace` keeps the text before the first occurrence, writes the replacement there and goes on after it |
| `Strings.ReplaceAllAbsent` | index.py:156 | `str.replace` changes nothing when the pattern does not occur |
| `Strings.ReplaceSpaceRemovesAll` | index.py:163 | replacing a space-free pattern by a space leaves no occurrence of it |
| `Strings.ReplaceSpaceRuns` | index.py:188 | replacing whitespace runs by one character never lengthens the text and gives "" only for ""; `ReplaceSpaceRunsSplit`, `ReplaceSpaceRunsRun` and `ReplaceSpaceRunsWord` pin down its value on every input |
| `Strings.ReplaceSpaceRunsSplit` | index.py:188 | a maximal whitespace run between two stretches of text becomes one replacement character when it has at least `min` characters and stays as it is when shorter; the text on either side is substituted on its own |
| `Strings.ReplaceSpaceRunsRun` | index.py:188 | a leading whitespace run becomes one replacement character when it has at least `min` characters and stays as it is when shorter |
| `Strings.ReplaceSpaceRunsWord` | index.py:188 | text without whitespace in front is copied as it is, and the substitution goes on after it |
| `Strings.ReplaceSpaceRunsNoSpace` | index.py:188 | text without whitespace is unchanged, whatever the minimum run length and the replacement |
| `Strings.Words` | index.py:188 | the words of a text are its maximal runs of non-whitespace characters, in order; each is non-empty and starts with a non-whitespace character |
| `Strings.WordsCollapse` | index.py:188 | replacing whitespace runs by a whitespace character keeps every word and every word break, in order |
| `Strings.WordsStrip` | index.py:188 | stripping keeps every word |
| `Strings.ReplaceSpaceRunsKeepsText` | index.py:188 | the whitespace-run substitution (here and at line 51) changes only whitespace: every other character (other than the replacement) survives, in order |
| `Strings.StripKeepsText` | index.py:50 | stripping removes only whitespace: every other character survives, in order |
| `Strings.Filter` | index.py:50 | the kept characters are ones `keep` accepts, taken from the input; text that `keep` accepts throughout is unchanged |
| `Strings.FilterAppend` | index.py:50 | filtering distributes over concatenation, so it decides each character on its own |
| `Strings.FilterSingle` | index.py:50 | a single character is kept exactly when `keep` accepts it |
| `Strings.FilterFilter` | index.py:50 | filtering by a stricter test after a looser one equals filtering by the stricter test alone |
| `Strings.CollapseNoDoubleSpace` | index.py:188 | after `\s{2,}` becomes one space, no two whitespace characters are adjacent |
| `Strings.UnderscoreRunsNoSpace` | index.py:51 | `\s+` replaced by `_` leaves no whitespace, keeps the other characters, and changes nothing in space-free text |
| `Phone.PhoneEndSpec` | index.py:153 | the end found at a start is the longest phone span there, and none exists when none is found |
| `Phone.PhoneSearchSpec` | index.py:153 | the search returns the leftmost start of any phone span with the longest span there, or nothing when no span exists |
| `Phone.PhoneSearch` | index.py:153 | a span found lies in the text, starts at or after the search position and is non-empty |
| `Phone.PhoneShape` | index.py:153 | a phone is at least 10 characters, starts with `+` or a digit, ends with a digit, and has only digits, whitespace, `-`, `(`, `)` inside |
| `Phone.PhoneStripped` | index.py:155 | `strip()` leaves a matched phone unchanged |
| `Phone.PhonePass` | index.py:153-156 | the phone taken is "" or a phone number that occurs in the block; when it is "" the copy is the block itself |
| `Phone.PhonePassFound` | index.py:153-156 | a phone found is the leftmost-longest match; the copy keeps the text before it, puts a space in its place and replaces every later occurrence |
| `Phone.PhonePassNone` | index.py:153-156 | the phone is "" exactly when no phone span exists, and then the copy is unchanged |
| `Payment.PayTokenAtIff` | index.py:159 | the token matches exactly when one of Ü ü U u is followed by one of A a G g, with no word character on either side |
| `Payment.PaySearch` | index.py:159 | the search returns the leftmost token position, or nothing when there is no token |
| `Payment.PaymentCodeOf` | index.py:161 | upper-casing a token and turning U into Ü gives "ÜA" for an A token and "ÜG" for a G token |
| `Payment.PaymentPass` | index.py:159-163 | the payment is "", "ÜA" or "ÜG"; it is "" exactly when no token matches anywhere, and then the copy is the block itself |
| `Payment.PaymentPassFound` | index.py:159-163 | with a token present, the payment is "ÜA" or "ÜG" by its second letter, and the copy keeps no occurrence of the token |
| `Payment.PaymentPassNone` | index.py:159-163 | with no token the payment is "" and the copy is unchanged |
| `Payment.PaymentParsed` | index.py:159-163 | the payment is "", "ÜA" or "ÜG", is "" exactly when there is no token, and normalises to the matching payer or None |
| `Address.KeywordsIgnoreCase` | index.py:166 | the keyword tests are the case-insensitive comparisons with Mah, Sok, Cad and No |
| `Address.AddressAtSpec` | index.py:166 | the match found at a start is a match and the longest one there; nothing is found when no match starts there |
| `Address.AddressSearchSpec` | index.py:166 | the search returns the leftmost start of any match, or nothing when there is no match |
| `Address.AddressSearch` | index.py:166 | a match found lies in the text, starts at or after the search position and is non-empty |
| `Address.AddressPass` | index.py:166-169 | the address taken is "", and then the copy is the block itself, or a stripped text holding Mah/Sok/Cad/No ignoring case |
| `Address.AddressPassFound` | index.py:166-169 | a match makes the address the stripped leftmost-longest match; it is non-empty, holds Mah/Sok/Cad/No ignoring case, and every occurrence is replaced in the copy |
| `Address.AddressPassNone` | index.py:166-169 | the address is "" exactly when no match exists, and then the copy is unchanged |
| `Name.FirstMarker` | index.py:173 | the first case-sensitive FATURA/İRSALİYE/irsaliye at or after a position, or nothing when there is none |
| `Name.BeforeMarker` | index.py:173-176 | a group exists exactly when a marker begins past position 0, and it is the text before the first such marker |
| `Name.FindAll` | index.py:177 | every span `findall` reports is a non-empty range of the text from the scan position on |
| `Name.FindAllOrdered` | index.py:177 | the runs `findall` reports are in order and no run begins between two of them |
| `Name.FindAllEdges` | index.py:177 | no run begins before the first reported run or after the last |
| `Name.NameInFound` | index.py:176-181 | a name is the stripped last run before the marker, with no run starting after it, and every occurrence is replaced in the copy |
| `Name.NameInShape` | index.py:177-180 | a name is non-empty, stripped, begins with a capital from A-Z or ĞÜŞİÖÇ and holds only name characters |
| `Name.NameInNone` | index.py:177-178 | no name is taken exactly when no run begins before the marker, and then the copy is unchanged |
| `Name.NamePass` | index.py:173-181 | the name taken is "", and then the copy is the block itself, or a stripped run beginning with a capital and holding only name characters |
| `Name.NamePassFound` | index.py:173-181 | a name found comes from the text before the first marker past position 0 |
| `Name.NamePassNone` | index.py:173-181 | the name is "" exactly when there is no marker past position 0 or no run before it, and then the copy is unchanged |
| `Fallback.DropLeadingDate` | index.py:186 | text not starting with a date is kept; a leading date goes, with at least its 10 characters, and what is left does not start with whitespace |
| `Fallback.DropLeadingDateOnlyAtStart` | index.py:186 | only a date at position 0 is removed, together with all the whitespace after it, and the rest is kept |
| `Fallback.RemoveNoise` | index.py:187 | deleting the noise words keeps only characters of the input and never lengthens it |
| `Fallback.NoiseFromFirst` | index.py:187 | where a noise word matches, the length removed is that of the first alternative, in pattern order, that matches there |
| `Fallback.RemoveNoiseFirst` | index.py:187 | the deletion keeps the text before the first noise match, drops the matched word and goes on after it |
| `Fallback.RemoveNoiseNone` | index.py:187 | without noise words the deletion changes nothing |
| `Fallback.FallbackAddress` | index.py:184-188 | the fallback address has no whitespace at either end and never two whitespace characters side by side; apart from whitespace it is exactly the text left after the date and noise removal, in order; its words are exactly that text's words, in order, so no word break is lost |
| `Parser.Extract` | index.py:148-188 | the name is "" or stripped and capitalised, the phone "" or a phone number, the payment "", "ÜA" or "ÜG", and the address stripped |
| `Parser.RowOf` | index.py:191-197 | a row has no final payer yet, and its parsed payer is None exactly when the payment is "" and ÜA exactly when it is "ÜA" |
| `Parser.Rows` | index.py:142-197 | every row has a name and no final payer yet, and there is at most one row per block |
| `Parser.ParseBlock` | index.py:148-191 | one loop iteration computes the row of the block and keeps it exactly when the name is non-empty |
| `Parser.ParseShipments` | index.py:148-197 | the loop appends, in block order, the row of every block with a name |
| `Parser.KeepStep` | index.py:190-197 | one iteration extends the rows of the first i blocks to those of the first i + 1 |
| `Parser.ParseRows` | index.py:142-197 | the parser returns no rows for empty input and otherwise the loop's rows over the blocks |
| `Parser.RowsFollowBlocks` | index.py:190-197 | for every input, empty included, a row exists for a block exactly when its name is non-empty, and rows follow block order |
| `Parser.RowsEmpty` | index.py:142-143 | empty input yields no rows |
| `Parser.RowFields` | index.py:150-197 | a row's name is stripped and capitalised, its phone is "" or a phone number, its payer is None exactly when no token was found, and its address is stripped, holding a keyword or being single-spaced |
| `FinalPay.DefaultIndex` | index.py:214 | the default option is ÜG exactly when the parsed payer is ÜG |
| `FinalPay.PayOfLabel` | index.py:216 | a label gives ÜA exactly when it contains "ÜA" |
| `FinalPay.LabelsNamePayers` | index.py:215-216 | the first radio label gives ÜA and the second ÜG |
| `FinalPay.FinalPayOf` | index.py:214-216 | left alone, the final payer is the parsed payer or ÜA when none was parsed, so it is ÜG exactly when the parsed payer is ÜG; a pick gives the payer of the picked label |
| `FinalPay.AssignFinalPay` | index.py:208-216 | every row gets a final payer in place and nothing else about any row changes |

## Left out

- Streamlit UI, widgets and session state (index.py:18, 125-137, 200-236). The
  user's radio choice for each row is the `picks` parameter of
  `FinalPay.AssignFinalPay`.
- PDF drawing and page sizes (`draw_label_on_canvas`, `build_single_label_pdf`,
  `build_bulk_pdf`, `get_pagesize`). These are reportlab calls and floating-point
  geometry.
- HTML templating and the print window (`make_print_html`, `make_bulk_print_html`,
  `open_print_window_with_html`). These produce output text and call the browser.
- Font registration, logo reading and base64 encoding. These are file I/O and
  library calls.
- `wrap_text_lines`: a thin wrapper over Python's `textwrap`.
- `PayToken.NormalizePayToken`: NFKC normalisation is taken as the identity.
  Compatibility characters (no-break space, fullwidth letters, ligatures) and a
  decomposed `Ü` are therefore not folded. This is exact for the values the parser
  passes, "", "ÜA" and "ÜG" (`Payment.PaymentParsed`). `str.lower` covers ASCII and
  the Turkish capitals only; `İ` becomes `i` plus a combining dot, as in Python.
- Case-insensitive matching compares by a simple lower-case mapping: ASCII plus
  ÇĞİÖŞÜ, with `İ` folding to `i`. Python's further folds (`ı`, `ſ`, the Kelvin sign,
  `[A-Za-z]` also matching `İ` and `ı`) are not modelled.
- `\d` is ASCII digits only; Python also accepts other Unicode decimal digits.
- `\w` is approximated by ASCII letters and digits, `_`, the Latin letters of
  U+00C0..U+024F and a few Latin-1 letters and numerics. Python accepts every
  Unicode letter and digit.
- Re-running the phone pass may find a second phone number in the same block; no
  lemma states anything about a second run.
