# Insurance claim field extractor

This project models `extract_insurance_info`, the field extractor of a Streamlit
insurance-claims app. The app runs OCR over an uploaded claim form, then turns
the recognised text into a record with a fixed set of keys:

- `document_type`, from a case-sensitive test for the markers "Insurance Claim",
  "Policy" and "Claim Form";
- `payment_method`, from an ordered rule table (Bank Transfer, FPS, Cheque). Each rule
  is a case-insensitive alternation, and the first rule that matches wins;
- `bank_account.bank`, `bank_account.number` and `fps_phone`, from three
  `re.search` captures. Each capture is normalised by `strip()`,
  `"".join(split())` or `replace(" ", "")`, respectively;
- `bank_account.holder`, `bank_account.currency` and `cheque_method`, which are
  never filled in.

The modules are:

- `Wrappers`: `Option`.
- `Text`: the whitespace set, ASCII case folding, `in`, `strip()`,
  `split()`/`join`, `replace`. Each comes with the lemmas that characterise it.
- `Regex`: a backtracking matcher for patterns made of character classes,
  each matched once or repeated greedily or lazily, one forming group 1.
  `MatchHere` and `TryCounts` try repetition counts in the order Python's engine
  does, and `Search` scans start positions left to right. `Fits` and `Prefers`
  define declaratively what a match is and which match the engine reports.
  `SearchCorrect` proves that `Search` returns exactly that match.
- `Extraction`: the record, the markers, the payment rules, the three patterns,
  the method `ExtractInsuranceInfo` and the properties of its result.
- `ExtractionLines`: the value extracted from a text that holds a well-formed
  `Bank Name`, `Account No.` or `Phone` line.
- `ExtractionExamples`: the record for concrete texts. This includes the
  pattern quirks. A label need not start its line, and an account number can run
  over several lines. Only spaces leave a phone number, and a value on the
  last line without a newline is lost. A blank `Bank Name:` line takes the
  next line as the name, and an earlier malformed label is skipped. A blank line
  after a phone number lets the number keep a newline.

`ExtractInsuranceInfo` builds the record step by step, as the source does. It
starts from the blank record, sets the document type, runs the payment
`for` loop with its `break`, then sets each captured field. Its postcondition
ties the result to the function `Extracted`. The lemmas about `Extracted`
state what each field is.

## Model

| member | source | states |
|---|---|---|
| Extraction.Extracted | insurtech_ocr/main.py:66-112 | The record `extract_insurance_info` returns, field by field: `DocumentTypeOf`, `FirstMatchingRule` over `PaymentRules`, `BankNameOf`, `AccountNumberOf` and `PhoneOf`. `holder`, `currency` and `cheque_method` stay None. It is the specification that `ExtractInsuranceInfo` is proved against. |
| Extraction.DocumentTypeOf | insurtech_ocr/main.py:82-83 | "Insurance Claim Form" when `any(x in text ...)` holds for `DocumentMarkers`. That constant is the list ["Insurance Claim", "Policy", "Claim Form"] of line 82. `DocumentTypeByMarkers` states what it means. |
| Extraction.FirstMatchingRule | insurtech_ocr/main.py:86-95 | The method of the first rule of `PaymentRules` whose alternation matches. That constant is the ordered table of lines 86-90: Bank Transfer for `Direct Credit` or `Bank Transfer`, FPS for `FPS` or `Fast Payment`, Cheque for `Cheque` or `Check`. `FirstMatchingRuleSpec` states what it means. |
| Extraction.BankNameOf | insurtech_ocr/main.py:98-100 | `re.search` with `BankNamePattern`, which stands for `Bank Name[:：]\s*(.+?)\n`, then `strip()` of group 1. None when nothing matches. |
| Extraction.AccountNumberOf | insurtech_ocr/main.py:103-105 | `re.search` with `AccountNumberPattern`, which stands for `Account No\.\s*[:：]\s*([0-9A-Z\s]+)\n`, then `"".join(split())` of group 1. None when nothing matches. |
| Extraction.PhoneOf | insurtech_ocr/main.py:108-110 | `re.search` with `PhonePattern`, which stands for `Phone\s*[:：]\s*([0-9\s]+)\n`, then `replace(" ", "")` of group 1. None when nothing matches. |
| Extraction.ExtractInsuranceInfo | insurtech_ocr/main.py:66-112 | The record built field by field, with the payment loop stopping at the first matching rule, equals `Extracted(text)`. |
| Extraction.ReservedFieldsAlwaysAbsent | insurtech_ocr/main.py:68-79 | `holder`, `currency` and `cheque_method` are None for every text. |
| Extraction.ContainsAny | insurtech_ocr/main.py:82 | `any(x in text for x in markers)` holds iff some marker occurs in the text. |
| Extraction.DocumentTypeByMarkers | insurtech_ocr/main.py:82-83 | The document type is "Insurance Claim Form" iff one of the three markers occurs at some position with its exact case, and None iff none does. |
| Extraction.RuleMatches | insurtech_ocr/main.py:87-93 | `re.search(pattern, text, re.IGNORECASE)` for one rule: `AnyIgnoringCase` over the rule's alternatives. |
| Extraction.AnyIgnoringCase | insurtech_ocr/main.py:87-93 | An alternation of literals matches, ignoring case, iff some alternative occurs in the text once both sides are lower-cased. |
| Extraction.FirstMatchingRuleSpec | insurtech_ocr/main.py:92-95 | Going through a rule list, the result is None iff no rule matches; otherwise it is the method of the first rule that matches. |
| Extraction.PaymentMethodByFirstRule | insurtech_ocr/main.py:86-95 | The payment method is Bank Transfer iff the first rule matches. It is FPS iff only the second and not the first matches, and Cheque iff only the third of them matches. It is None iff none matches. |
| Extraction.NoNewlineNoCaptures | insurtech_ocr/main.py:98-110 | A text without a newline gives no bank name, account number or phone. |
| Extraction.BlankTextGivesBlankRecord | insurtech_ocr/main.py:66-112 | An empty or whitespace-only text gives the blank record. |
| Extraction.CaptureInClass | insurtech_ocr/main.py:98-110 | Every character of a capture belongs to the class of its group. |
| Extraction.BankNameShape | insurtech_ocr/main.py:98-100 | A bank name holds no newline and has no whitespace at either end; it may be empty. |
| Extraction.AccountNumberShape | insurtech_ocr/main.py:103-105 | An account number consists of ASCII digits and capital letters only. |
| Extraction.PhoneShape | insurtech_ocr/main.py:108-110 | A phone number consists of digits and whitespace other than the space. |
| Extraction.CapturesNeedLabels | insurtech_ocr/main.py:98-110 | A field is captured only if its label occurs somewhere in the text, not necessarily at a line start. |
| Extraction.LabelOccurs | insurtech_ocr/main.py:98-110 | A pattern that begins with a literal captures only in a text that contains the literal. |
| ExtractionLines.BankLine | insurtech_ocr/main.py:98 | Suppose no match of the pattern starts before the label. After the label come a colon, spaces, and a value that starts with no space and ends before the first newline. Then the capture is exactly that value. |
| ExtractionLines.BankNameLine | insurtech_ocr/main.py:98-100 | Take a text with a line `Bank Name` + `:` or `：` + spaces + value + newline, and no earlier occurrence of `Bank Name`. Its bank name is the stripped value. |
| ExtractionLines.KeyValueLine | insurtech_ocr/main.py:103-108 | Suppose no match of the pattern starts before the label. After the label come optional whitespace, a colon, optional whitespace, then a value of the class that starts with no space and ends in a newline. The class run after that newline holds no newline. Then the capture is exactly that value. |
| ExtractionLines.AccountNumberLine | insurtech_ocr/main.py:103-105 | An `Account No.` line gives its value with all whitespace removed. The label does not occur earlier, and the value is followed by a newline and a class run without a newline, such as the start of a following `Phone` line. |
| ExtractionLines.PhoneLine | insurtech_ocr/main.py:108-110 | A `Phone` line gives its value with each space removed. The label does not occur earlier, and the value is followed by a newline and a class run without a newline. |
| ExtractionLines.RunWithoutNewlineMeans | insurtech_ocr/main.py:103-108 | The condition after the value holds iff no newline is reachable through class characters alone. |
| ExtractionLines.BankNameTailFails | insurtech_ocr/main.py:98 | Where the character after `Bank Name` is not `:` or `：`, no match of the rest of the pattern starts there. |
| ExtractionLines.BankNameNeedsColon | insurtech_ocr/main.py:98-100 | A text in which `Bank Name` is never directly followed by `:` or `：` has no bank name. |
| ExtractionLines.BankBlankTailMatch | insurtech_ocr/main.py:98 | A colon, then only spaces up to the newline that ends the text: `\s*` gives back one space for `.+?`, and that match is preferred to every other. The group is that one space. |
| ExtractionLines.BlankBankNameLine | insurtech_ocr/main.py:98-100 | A last line `Bank Name:` followed by spaces only, with no earlier occurrence of the label, gives the empty bank name. |
| ExtractionLines.KeyValueTailFails | insurtech_ocr/main.py:103-108 | Suppose after the label come spaces, a colon and spaces without a newline, then a character outside the value class. Then no match of the rest of the pattern starts there. |
| ExtractionLines.BankNameTailMatch | insurtech_ocr/main.py:98 | After `Bank Name`, the engine takes the colon, all spaces (greedy `\s*`), and the value up to the first newline (lazy `.+?`). Every other match is less preferred. |
| ExtractionLines.KeyValueTailMatch | insurtech_ocr/main.py:103-108 | After the label of the other two patterns come spaces, the colon, spaces and a value ending with a newline, followed by a class run without a newline. The engine takes all spaces and that whole value. Every other match is less preferred. |
| Regex.MatchHere | insurtech_ocr/main.py:98-108 | Python's backtracking match at one position, trying greedy counts from most and lazy counts from fewest. `MatchHereSound`, `MatchHereComplete` and `MatchHerePreferred` state what it means. |
| Regex.Search | insurtech_ocr/main.py:98-108 | `re.search`: `MatchHere` at each start position from left to right. `SearchCorrect` states what it means. |
| Regex.Capture | insurtech_ocr/main.py:98-108 | `match.group(1)` of `re.search`, or None without a match. `CaptureOfFirstMatch` states what it means. |
| Regex.RunLength | insurtech_ocr/main.py:98-108 | The longest run of class characters from a position: all in the class, and the next character is not. |
| Regex.MatchHereSound | insurtech_ocr/main.py:98-108 | The counts the backtracking matcher reports form a match. |
| Regex.MatchHereComplete | insurtech_ocr/main.py:98-108 | The matcher finds a match wherever one exists. |
| Regex.MatchHerePreferred | insurtech_ocr/main.py:98-108 | The matcher reports the match reached first by backtracking (most for greedy, fewest for lazy repetitions). |
| Regex.SearchFromCorrect | insurtech_ocr/main.py:98-108 | Scanning from a start position finds nothing iff no match exists there or later. Otherwise it finds the leftmost start and the preferred match at it. |
| Regex.SearchCorrect | insurtech_ocr/main.py:98-108 | `re.search` finds nothing iff no match exists. Otherwise it finds the leftmost start and, there, the preferred match. |
| Regex.PrefersAsymmetric | insurtech_ocr/main.py:98-108 | Of two distinct matches at one start, at most one is preferred to the other. |
| Regex.FirstMatchUnique | insurtech_ocr/main.py:98-108 | The declarative description of the reported match determines it uniquely. |
| Regex.CaptureOfFirstMatch | insurtech_ocr/main.py:98-108 | The group captured is the group of the match described by `IsFirstMatch`. |
| Regex.GroupInClass | insurtech_ocr/main.py:98-108 | The characters of the group text belong to the group's class. |
| Regex.MissingCharNoCapture | insurtech_ocr/main.py:98-108 | A pattern that needs a character missing from the text captures nothing. |
| Regex.FitsLiteralPrefix | insurtech_ocr/main.py:98-108 | A match of a pattern starting with a literal starts with that literal. |
| Regex.LabelledCapture | insurtech_ocr/main.py:98-108 | Suppose the label occurs at `i` and no match of the label-prefixed pattern starts before `i`. Then the pattern captures the group of the tail's preferred match right after the label. |
| Regex.LabelAbsentNoMatch | insurtech_ocr/main.py:98-108 | No match of a label-prefixed pattern starts where the label does not occur. |
| Regex.TailFailsNoMatch | insurtech_ocr/main.py:98-108 | No match of a label-prefixed pattern starts at an occurrence of the label that the tail cannot follow. |
| Text.Contains | insurtech_ocr/main.py:82 | Python's `sub in text` holds iff `sub` occurs at some position. |
| Text.ContainsIgnoringCase | insurtech_ocr/main.py:93 | A case-insensitive literal search succeeds iff the word occurs at some position once both sides are lower-cased. |
| Text.Strip | insurtech_ocr/main.py:100 | The result is a slice of the input with only whitespace cut off at both ends. It begins and ends with a non-whitespace character, or is empty. |
| Text.StripUnchanged | insurtech_ocr/main.py:100 | A text without whitespace at either end is unchanged by `strip()`. |
| Text.StripOfBlank | insurtech_ocr/main.py:100 | A text of whitespace only strips to the empty string. |
| Text.Concat | insurtech_ocr/main.py:105 | `"".join(words)`. `ConcatSplit` states what it gives on `split()`. |
| Text.NonSpace | insurtech_ocr/main.py:105 | No character of the result is whitespace. |
| Text.NonSpaceCount | insurtech_ocr/main.py:105 | Every non-whitespace character is kept as often as it occurs, and every whitespace character is dropped. |
| Text.NonSpaceAppend | insurtech_ocr/main.py:105 | Removing whitespace distributes over concatenation. |
| Text.Split | insurtech_ocr/main.py:105 | `split()` yields non-empty words without whitespace. |
| Text.ConcatSplit | insurtech_ocr/main.py:105 | `"".join(s.split())` equals `s` with every whitespace character removed. |
| Text.JoinWords | insurtech_ocr/main.py:105 | The account-number normalisation removes exactly the whitespace characters. |
| Text.Replace | insurtech_ocr/main.py:110 | `str.replace(target, replacement)` for a one-character target. `ReplaceCount`, `ReplaceAbsent` and `ReplaceAppend` state what it means. |
| Text.ReplaceCount | insurtech_ocr/main.py:110 | Replacing a character removes it (for an empty replacement) and keeps every other character. |
| Text.ReplaceAbsent | insurtech_ocr/main.py:110 | Replacing a character the text does not hold changes nothing. |
| Text.ReplaceAppend | insurtech_ocr/main.py:110 | Replacement distributes over concatenation. |
| ExtractionExamples.PolicyMarksAClaimForm | insurtech_ocr/main.py:82-83 | "This is a Policy document" is a claim form. |
| ExtractionExamples.LowerCaseMarkerIsIgnored | insurtech_ocr/main.py:82-83 | "this is a policy document" has no document type: the marker test is case-sensitive. |
| ExtractionExamples.BankTransferBeforeCheque | insurtech_ocr/main.py:86-95 | A text naming both Bank Transfer and Cheque is a bank transfer. |
| ExtractionExamples.LowerCaseFps | insurtech_ocr/main.py:88-93 | "fps payment" is an FPS payment: the rules ignore case. |
| ExtractionExamples.ChequeOnly | insurtech_ocr/main.py:89-93 | "Cheque no. 42" is a cheque payment. |
| ExtractionExamples.AccountNumberWithSpaces | insurtech_ocr/main.py:103-105 | "Account No. : 12 34 AB⏎" gives account number "1234AB". |
| ExtractionExamples.AccountNumberSpansLines | insurtech_ocr/main.py:103-105 | The value class takes newlines, so "Account No.: 12⏎34⏎abc" gives "1234". |
| ExtractionExamples.PhoneWithSpace | insurtech_ocr/main.py:108-110 | "Phone: 9876 5432⏎" gives "98765432". |
| ExtractionExamples.PhoneKeepsTab | insurtech_ocr/main.py:108-110 | A tab inside the phone number stays. |
| ExtractionExamples.HomePhone | insurtech_ocr/main.py:108-110 | The label need not start its line: "Home Phone: 555⏎" gives "555". |
| ExtractionExamples.BankNameFullWidthColon | insurtech_ocr/main.py:98-100 | The full-width colon is accepted after `Bank Name`. |
| ExtractionExamples.BankNameStripped | insurtech_ocr/main.py:98-100 | Trailing spaces of the bank name are stripped. |
| ExtractionExamples.PhoneWithoutNewline | insurtech_ocr/main.py:108-110 | A phone number on a last line without a newline is lost. |
| ExtractionExamples.AccountLineBeforePhoneLine | insurtech_ocr/main.py:103-105 | "Account No.: 123 456⏎Phone: 9876 5432⏎" gives "123456". The `P` joins the value run, but that run holds no newline. |
| ExtractionExamples.PhoneBeforeBlankLine | insurtech_ocr/main.py:108-110 | "Phone: 9876 5432⏎⏎" gives "98765432⏎": the greedy run takes the first newline. |
| ExtractionExamples.SpaceBeforeBankNameColon | insurtech_ocr/main.py:98-100 | "Bank Name : X⏎" has no bank name: the colon must follow the label at once. |
| ExtractionExamples.BlankBankName | insurtech_ocr/main.py:98-100 | "Bank Name:  ⏎" gives the empty bank name. |
| ExtractionExamples.BlankBankNameTakesNextLine | insurtech_ocr/main.py:98-100 | `\s*` runs over the newline, so "Bank Name:  ⏎HSBC⏎" gives "HSBC". |
| ExtractionExamples.BankTransferAboveBankName | insurtech_ocr/main.py:98-100 | A "Payment: Bank Transfer" line above "Bank Name: HSBC⏎" does not hide the bank name. |
| ExtractionExamples.MalformedPhoneSkipped | insurtech_ocr/main.py:108-110 | "Phone: x⏎Phone: 12⏎" gives "12": an earlier label without a number is skipped. |
| ExtractionExamples.ClaimFormRecord | insurtech_ocr/main.py:66-112 | The complete record for a five-line claim form. |

## Left out

- `process_file` (insurtech_ocr/main.py:28-64) is left out. It writes a temporary file and calls pdf2image, PIL and pytesseract, which are foreign libraries. The model takes the OCR text as its input.
- The tool-path configuration (insurtech_ocr/main.py:13-23) is left out. It is filesystem checks and global settings.
- The Streamlit user interface (insurtech_ocr/main.py:117-250) is left out, including the `+852` display prefix. It is presentation only.
- `\s`, `str.strip()` and `str.split()` use a fixed whitespace set: space, tab, newline, carriage return, vertical tab and form feed. Python's Unicode whitespace beyond these is not modelled.
- `re.IGNORECASE` is modelled as ASCII lower-casing of both sides. Unicode case folding is not modelled.
- The source uses six patterns: three case-insensitive alternations in the payment rules (insurtech_ocr/main.py:87-89) and three capture patterns (insurtech_ocr/main.py:98, 103 and 108). `Regex` covers only what the three capture patterns use: literal characters, classes, `*`, `+`, `+?` and one group. It is not a general model of `re`. An alternation of literals with `re.IGNORECASE` is modelled directly as a search for each literal, ignoring case (`Extraction.AnyIgnoringCase`).
- The result dictionary is modelled as an immutable record that the method replaces field by field. It is a local value that is never shared, so aliasing does not arise.
- The payment method is recorded as its key, Bank Transfer, FPS or Cheque. The document type is recorded as its one value; `Name()` gives the strings the source stores.
- One might expect the FPS phone to lose all whitespace, as the account number does. The code removes only the space character (insurtech_ocr/main.py:110). The model follows the code: `PhoneShape` and `PhoneKeepsTab` state that other whitespace remains.
- ExtractionLines.BankNameLine, ExtractionLines.AccountNumberLine, ExtractionLines.PhoneLine: these require that the label does not occur earlier in the text. This is stronger than `re.search` needs. The exact condition, that no match of the pattern starts earlier, is the precondition of `ExtractionLines.BankLine`, `ExtractionLines.KeyValueLine` and `Regex.LabelledCapture`. `ExtractionExamples.MalformedPhoneSkipped` uses it for a text with an earlier, malformed `Phone` line.
