/**
 * The extractor on concrete documents: claim-form texts as the OCR step would
 * produce them, and the record `extract_insurance_info` returns for each,
 * including the places where its patterns behave unexpectedly.
 */
module ExtractionExamples {
  import opened Wrappers
  import opened Text
  import opened Regex
  import opened Extraction
  import opened ExtractionLines

  // ---------------------------------------------------------------------------
  // Document type

  lemma PolicyMarksAClaimForm()
    ensures Extracted("This is a Policy document").documentType == Some(InsuranceClaimForm)
  {
    var t := "This is a Policy document";
    assert OccursAt(t, DocumentMarkers[1], 10);
    DocumentTypeByMarkers(t);
  }

  /** The marker test is case-sensitive: a lower-case `policy` is no marker. */
  lemma LowerCaseMarkerIsIgnored()
    ensures Extracted("this is a policy document").documentType == None
  {
    var t := "this is a policy document";
    NoMarkerCapitals(t);
    FirstCharAbsent(t, "Insurance Claim");
    FirstCharAbsent(t, "Policy");
    FirstCharAbsent(t, "Claim Form");
    assert !ContainsAny(t, DocumentMarkers);
  }

  lemma NoMarkerCapitals(t: string)
    requires t == "this is a policy document"
    ensures 'I' !in t && 'P' !in t && 'C' !in t
  {
  }

  // ---------------------------------------------------------------------------
  // Payment method

  /** Bank transfer is tested before cheque, so a text naming both is a bank transfer. */
  lemma BankTransferBeforeCheque()
    ensures Extracted("Bank Transfer requested, not Cheque").paymentMethod == Some(BankTransfer)
  {
    var t := "Bank Transfer requested, not Cheque";
    assert OccursIgnoringCaseAt(t, "Bank Transfer", 0);
    assert AnyIgnoringCase(t, PaymentRules[0].alternatives);
    PaymentMethodByFirstRule(t);
  }

  /** The payment alternatives are matched ignoring case. */
  lemma LowerCaseFps()
    ensures Extracted("fps payment").paymentMethod == Some(Fps)
  {
    var t := "fps payment";
    FirstCharAbsentIgnoringCase(t, "Direct Credit");
    FirstCharAbsentIgnoringCase(t, "Bank Transfer");
    assert OccursIgnoringCaseAt(t, "FPS", 0);
    PaymentMethodByFirstRule(t);
  }

  lemma ChequeOnly()
    ensures Extracted("Cheque no. 42").paymentMethod == Some(Cheque)
  {
    var t := "Cheque no. 42";
    ChequeIsNoTransfer(t);
    ChequeIsNoFps(t);
    ChequeIsCheque(t);
    PaymentMethodByFirstRule(t);
  }

  lemma ChequeIsCheque(t: string)
    requires t == "Cheque no. 42"
    ensures RuleMatches(t, PaymentRules[2])
  {
    assert OccursIgnoringCaseAt(t, "Cheque", 0);
  }

  lemma ChequeIsNoTransfer(t: string)
    requires t == "Cheque no. 42"
    ensures !RuleMatches(t, PaymentRules[0])
  {
    FirstCharAbsentIgnoringCase(t, "Direct Credit");
    FirstCharAbsentIgnoringCase(t, "Bank Transfer");
  }

  lemma ChequeIsNoFps(t: string)
    requires t == "Cheque no. 42"
    ensures !RuleMatches(t, PaymentRules[1])
  {
    FirstCharAbsentIgnoringCase(t, "FPS");
    FirstCharAbsentIgnoringCase(t, "Fast Payment");
  }

  // ---------------------------------------------------------------------------
  // Captures

  /** The account number loses the spaces between its groups. */
  lemma AccountNumberWithSpaces()
    ensures Extracted("Account No. : 12 34 AB\n").bankAccount.number == Some("1234AB")
  {
    AccountNumberLine("Account No. : 12 34 AB\n", "", " ", ':', " ", "12 34 AB", "");
    NonSpaceOfGroups();
  }

  /**
   * The value class `[0-9A-Z\s]` takes newlines too, so the captured number runs
   * over several lines up to the last newline before a character outside it.
   */
  lemma AccountNumberSpansLines()
    ensures Extracted("Account No.: 12\n34\nabc").bankAccount.number == Some("1234")
  {
    AccountNumberLine("Account No.: 12\n34\nabc", "", "", ':', " ", "12\n34", "abc");
    NonSpaceOfLines();
  }

  lemma PhoneWithSpace()
    ensures Extracted("Phone: 9876 5432\n").fpsPhone == Some("98765432")
  {
    PhoneLine("Phone: 9876 5432\n", "", "", ':', " ", "9876 5432", "");
    ReplaceOfGroups();
  }

  /** Only the space character is removed from the phone number; a tab stays. */
  lemma PhoneKeepsTab()
    ensures Extracted("Phone: 12\t34\n").fpsPhone == Some("12\t34")
  {
    PhoneLine("Phone: 12\t34\n", "", "", ':', " ", "12\t34", "");
    ReplaceOfTab();
  }

  /** The label may follow other text on its line. */
  lemma HomePhone()
    ensures Extracted("Home Phone: 555\n").fpsPhone == Some("555")
  {
    var w := "Phone";
    assert w[0] == 'P' && "Home Phone: 555\n" == "Home " + "Phone: 555\n";
    FirstCharAbsentIn([], "Home ", "Phone: 555\n", w);
    assert [] + "Home " + "Phone: 555\n" == "Home Phone: 555\n";
    PhoneLine("Home Phone: 555\n", "Home ", "", ':', " ", "555", "");
    ReplaceOfDigits();
  }

  /** A full-width colon is accepted after `Bank Name`. */
  lemma BankNameFullWidthColon()
    ensures Extracted("Bank Name\U{FF1A}HSBC\n").bankAccount.bank == Some("HSBC")
  {
    BankNameLine("Bank Name\U{FF1A}HSBC\n", "", '\U{FF1A}', "", "HSBC", "");
    StripOfWord();
  }

  /** The bank name is stripped of the whitespace around it. */
  lemma BankNameStripped()
    ensures Extracted("Bank Name: HSBC Ltd \n").bankAccount.bank == Some("HSBC Ltd")
  {
    BankNameLine("Bank Name: HSBC Ltd \n", "", ':', " ", "HSBC Ltd ", "");
    StripOfTrailingSpace();
  }

  /** Every capture needs a newline after its value: the last line of a text without one is lost. */
  lemma PhoneWithoutNewline()
    ensures Extracted("Phone: 98765432").fpsPhone == None
  {
    NoNewlineNoCaptures("Phone: 98765432");
  }

  // ---------------------------------------------------------------------------
  // Lines the patterns read unexpectedly

  /** `Bank Name` must be followed by the colon at once: a space before it loses the bank name. */
  lemma SpaceBeforeBankNameColon()
    ensures Extracted("Bank Name : X\n").bankAccount.bank == None
  {
    var t, w := "Bank Name : X\n", "Bank Name";
    assert w[0] == 'B' && t == "B" + "ank Name : X\n" + [];
    FirstCharAbsentIn("B", "ank Name : X\n", [], w);
    assert t[9] == ' ';
    BankNameNeedsColon(t);
  }

  /** A bank-name value of spaces ending the text: `.+?` takes one space, which strips to the empty name. */
  lemma BlankBankName()
    ensures Extracted("Bank Name:  \n").bankAccount.bank == Some("")
  {
    BlankBankNameLine("Bank Name:  \n", "", ':', "  ");
  }

  /** `\s*` runs over the newline, so a blank bank-name line takes the next line as the name. */
  lemma BlankBankNameTakesNextLine()
    ensures Extracted("Bank Name:  \nHSBC\n").bankAccount.bank == Some("HSBC")
  {
    BankNameLine("Bank Name:  \nHSBC\n", "", ':', "  \n", "HSBC", "");
    StripOfWord();
  }

  const TransferLine := "Payment: Bank Transfer\n"

  /** An earlier `Bank` that does not begin `Bank Name` is passed over. */
  lemma BankTransferAboveBankName()
    ensures Extracted(TransferLine + BankNameText).bankAccount.bank == Some("HSBC")
  {
    var t := TransferLine + BankNameText;
    BankNameTextParts();
    NoBankNameInTransferLine();
    assert t == TransferLine + "Bank Name" + [':'] + " " + "HSBC" + "\n" + "";
    BankNameLine(t, TransferLine, ':', " ", "HSBC", "");
    StripOfWord();
  }

  lemma NoBankNameInTransferLine()
    ensures forall j :: 0 <= j < |TransferLine| ==> !OccursAt(TransferLine + BankNameText, "Bank Name", j)
  {
    var a, b, c, w := "Payment: ", "ank Transfer\n", BankNameText, "Bank Name";
    assert w[0] == 'B';
    assert TransferLine + BankNameText == [] + a + ("B" + b + c) == a + "B" + b + c;
    FirstCharAbsentIn([], a, "B" + b + c, w);
    MismatchAt(TransferLine + BankNameText, w, 9, 5);
    FirstCharAbsentIn(a + "B", b, c, w);
  }

  const MalformedPhoneLine := "Phone: x\n"
  const ShortPhoneLine := "Phone: 12\n"

  /** A `Phone` label whose value is not a number is skipped, and the next one is read. */
  lemma MalformedPhoneSkipped()
    ensures Extracted(MalformedPhoneLine + ShortPhoneLine).fpsPhone == Some("12")
  {
    var t, w := MalformedPhoneLine + ShortPhoneLine, "Phone";
    NoPhoneMatchBefore();
    assert t == MalformedPhoneLine + w + "" + [':'] + " " + "12" + "\n" + "";
    KeyValueLine(MalformedPhoneLine, w, "", ':', " ", "12", "", DigitSpace);
    ReplaceAbsent("12", ' ', "");
  }

  lemma NoPhoneMatchBefore()
    ensures NoMatchIn(MalformedPhoneLine + ShortPhoneLine, PhonePattern, 0, |MalformedPhoneLine|)
  {
    var t, w, tail := MalformedPhoneLine + ShortPhoneLine, "Phone", KeyValueTail(DigitSpace);
    MalformedPhoneFacts();
    KeyValueTailFails(t, 5, 0, 1, DigitSpace);
    TailFailsNoMatch(t, w, tail, 0);
    assert w[0] == 'P' && t == "P" + "hone: x\n" + ShortPhoneLine;
    FirstCharAbsentIn("P", "hone: x\n", ShortPhoneLine, w);
    LabelAbsentNoMatch(t, w, tail, 1, 9);
  }

  lemma MalformedPhoneFacts()
    ensures var t := MalformedPhoneLine + ShortPhoneLine;
      |t| == 19 && t[5] == ':' && t[6] == ' ' && t[7] == 'x'
  {
  }

  /**
   * The account value class holds the capitals, so the `P` of a following `Phone`
   * line extends the value run. That run holds no newline, so the number still
   * ends at its own line.
   */
  lemma AccountLineBeforePhoneLine()
    ensures Extracted(AccountLine + PhoneNumberLine).bankAccount.number == Some("123456")
  {
    var t := AccountLine + PhoneNumberLine;
    AccountLineParts();
    PhoneLineAfterAccountValue();
    assert t == "" + "Account No." + "" + [':'] + " " + "123 456" + "\n" + PhoneNumberLine;
    AccountNumberLine(t, "", "", ':', " ", "123 456", PhoneNumberLine);
    NonSpaceOfNumber();
  }

  lemma PhoneLineAfterAccountValue()
    ensures InClass(DigitUpperSpace, PhoneNumberLine[0])
    ensures RunWithoutNewline(PhoneNumberLine, DigitUpperSpace)
  {
  }

  /** A blank line after a phone line lets the greedy value run take the first newline, which the number keeps. */
  lemma PhoneBeforeBlankLine()
    ensures Extracted("Phone: 9876 5432\n\n").fpsPhone == Some("98765432\n")
  {
    PhoneLine("Phone: 9876 5432\n\n", "", "", ':', " ", "9876 5432\n", "");
    ReplaceOfGroupsLine();
  }

  // ---------------------------------------------------------------------------
  // A whole claim form, line by line

  const TitleLine := "Insurance Claim Form\n"
  const MethodLine := "Method: Direct Credit\n"
  const BankNameText := "Bank Name: HSBC\n"
  const PhoneNumberLine := "Phone: 9876 5432\n"
  const AccountLine := "Account No.: 123 456\n"
  const ClaimForm := TitleLine + MethodLine + BankNameText + PhoneNumberLine + AccountLine

  /** Every field the extractor fills in, for one complete form. */
  lemma ClaimFormRecord()
    ensures Extracted(ClaimForm) == InsuranceInfo(
      Some(InsuranceClaimForm),
      Some(BankTransfer),
      BankAccount(None, Some("HSBC"), Some("123456"), None),
      Some("98765432"),
      None)
  {
    ClaimFormDocumentType();
    ClaimFormPayment();
    ClaimFormBank();
    ClaimFormAccount();
    ClaimFormPhone();
  }

  lemma ClaimFormDocumentType()
    ensures DocumentTypeOf(ClaimForm) == Some(InsuranceClaimForm)
  {
    var rest := MethodLine + BankNameText + PhoneNumberLine + AccountLine;
    assert ClaimForm == TitleLine + rest;
    assert TitleLine[..15] == "Insurance Claim";
    assert ClaimForm[..15] == TitleLine[..15];
    assert OccursAt(ClaimForm, DocumentMarkers[0], 0);
    DocumentTypeByMarkers(ClaimForm);
  }

  lemma ClaimFormPayment()
    ensures FirstMatchingRule(ClaimForm, PaymentRules) == Some(BankTransfer)
  {
    var rest := BankNameText + PhoneNumberLine + AccountLine;
    assert ClaimForm == TitleLine + MethodLine + rest;
    MethodLineNamesDirectCredit();
    OccursIgnoringCaseInside(TitleLine, MethodLine, rest, "Direct Credit", 8);
    assert ContainsIgnoringCase(ClaimForm, PaymentRules[0].alternatives[0]);
    assert RuleMatches(ClaimForm, PaymentRules[0]);
    PaymentMethodByFirstRule(ClaimForm);
  }

  lemma MethodLineNamesDirectCredit()
    ensures OccursIgnoringCaseAt(MethodLine, "Direct Credit", 8)
  {
  }

  /** An occurrence inside a middle piece is an occurrence in the whole text. */
  lemma OccursIgnoringCaseInside(pre: string, mid: string, post: string, w: string, i: nat)
    requires OccursIgnoringCaseAt(mid, w, i)
    ensures OccursIgnoringCaseAt(pre + mid + post, w, |pre| + i)
  {
    var t := pre + mid + post;
    forall k | 0 <= k < |w| ensures Lower(t[|pre| + i + k]) == Lower(w[k]) {
      assert t[|pre| + i + k] == mid[i + k];
    }
  }

  lemma ClaimFormBank()
    ensures BankNameOf(ClaimForm) == Some("HSBC")
  {
    var pre, rest := TitleLine + MethodLine, PhoneNumberLine + AccountLine;
    ClaimFormAroundBankLine();
    NoBankNameAboveBankLine();
    BankNameLine(ClaimForm, pre, ':', " ", "HSBC", rest);
    StripOfWord();
  }

  lemma ClaimFormAroundBankLine()
    ensures ClaimForm == TitleLine + MethodLine + "Bank Name" + [':'] + " " + "HSBC" + "\n" + (PhoneNumberLine + AccountLine)
  {
    BankNameTextParts();
  }

  lemma NoBankNameAboveBankLine()
    ensures forall j :: 0 <= j < |TitleLine + MethodLine| ==> !OccursAt(ClaimForm, "Bank Name", j)
  {
    var pre, rest, w := TitleLine + MethodLine, BankNameText + PhoneNumberLine + AccountLine, "Bank Name";
    NoBBeforeBank();
    assert w[0] == 'B';
    FirstCharAbsentIn([], pre, rest, w);
    assert [] + pre + rest == ClaimForm;
  }

  lemma BankNameTextParts()
    ensures BankNameText == "Bank Name" + [':'] + " " + "HSBC" + "\n"
  {
  }

  lemma NoBBeforeBank()
    ensures 'B' !in TitleLine + MethodLine
  {
    assert 'B' !in TitleLine && 'B' !in MethodLine;
  }

  lemma ClaimFormPhone()
    ensures PhoneOf(ClaimForm) == Some("98765432")
  {
    var pre := TitleLine + MethodLine + BankNameText;
    PhoneNumberLineParts();
    NoPBeforePhone();
    assert ClaimForm == pre + PhoneNumberLine + AccountLine == pre + (PhoneNumberLine + AccountLine);
    var w := "Phone";
    assert w[0] == 'P';
    FirstCharAbsentIn([], pre, PhoneNumberLine + AccountLine, w);
    assert [] + pre + (PhoneNumberLine + AccountLine) == ClaimForm;
    PhoneLine(ClaimForm, pre, "", ':', " ", "9876 5432", AccountLine);
    ReplaceOfGroups();
  }

  lemma PhoneNumberLineParts()
    ensures PhoneNumberLine == "Phone" + "" + [':'] + " " + "9876 5432" + "\n" + ""
    ensures forall k :: 0 <= k < |"9876 5432"| ==> InClass(DigitSpace, "9876 5432"[k])
    ensures !InClass(DigitSpace, AccountLine[0])
  {
  }

  lemma NoPBeforePhone()
    ensures 'P' !in TitleLine + MethodLine + BankNameText
  {
    assert 'P' !in TitleLine && 'P' !in MethodLine && 'P' !in BankNameText;
  }

  lemma ClaimFormAccount()
    ensures AccountNumberOf(ClaimForm) == Some("123456")
  {
    var pre := TitleLine + MethodLine + BankNameText + PhoneNumberLine;
    AccountLineParts();
    NoABeforeAccount();
    assert ClaimForm == pre + AccountLine;
    var w := "Account No.";
    assert w[0] == 'A';
    FirstCharAbsentIn([], pre, AccountLine, w);
    assert [] + pre + AccountLine == ClaimForm;
    AccountNumberLine(ClaimForm, pre, "", ':', " ", "123 456", "");
    NonSpaceOfNumber();
  }

  lemma AccountLineParts()
    ensures AccountLine == "Account No." + "" + [':'] + " " + "123 456" + "\n" + ""
    ensures forall k :: 0 <= k < |"123 456"| ==> InClass(DigitUpperSpace, "123 456"[k])
  {
  }

  lemma NoABeforeAccount()
    ensures 'A' !in TitleLine + MethodLine + BankNameText + PhoneNumberLine
  {
    assert 'A' !in TitleLine && 'A' !in MethodLine && 'A' !in BankNameText && 'A' !in PhoneNumberLine;
  }

  // The normalised values used above, each computed on its own.

  lemma NonSpaceOfGroups()
    ensures NonSpace("12 34 AB") == "1234AB"
  {
  }

  lemma NonSpaceOfNumber()
    ensures NonSpace("123 456") == "123456"
  {
  }

  lemma NonSpaceOfLines()
    ensures NonSpace("12\n34") == "1234"
  {
  }

  lemma ReplaceOfGroups()
    ensures Replace("9876 5432", ' ', "") == "98765432"
  {
    var a, b := "9876", "5432";
    assert "9876 5432" == a + [' '] + b;
    ReplaceDropsOne(a, b, ' ');
    assert a + b == "98765432";
  }

  lemma ReplaceOfGroupsLine()
    ensures Replace("9876 5432\n", ' ', "") == "98765432\n"
  {
    var a, b := "9876", "5432\n";
    assert "9876 5432\n" == a + [' '] + b;
    ReplaceDropsOne(a, b, ' ');
    assert a + b == "98765432\n";
  }

  /** Removing the one occurrence of `target` between two pieces joins them. */
  lemma ReplaceDropsOne(a: string, b: string, target: char)
    requires target !in a && target !in b
    ensures Replace(a + [target] + b, target, "") == a + b
  {
    var left := a + [target];
    ReplaceAppend(left, b, target, "");
    ReplaceAppend(a, [target], target, "");
    ReplaceAbsent(a, target, "");
    ReplaceAbsent(b, target, "");
    ReplaceOfTarget(target);
    assert Replace(left, target, "") == a;
  }

  lemma ReplaceOfTarget(target: char)
    ensures Replace([target], target, "") == []
  {
    assert [target][1..] == [];
  }

  lemma ReplaceOfTab()
    ensures Replace("12\t34", ' ', "") == "12\t34"
  {
  }

  lemma ReplaceOfDigits()
    ensures Replace("555", ' ', "") == "555"
  {
  }

  lemma StripOfWord()
    ensures Strip("HSBC") == "HSBC"
  {
  }

  lemma StripOfTrailingSpace()
    ensures Strip("HSBC Ltd ") == "HSBC Ltd"
  {
  }
}
