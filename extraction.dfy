/**
 * The field extractor of the insurance claims processor: from the OCR text of
 * one document it builds a record with a fixed set of keys, using a
 * case-sensitive marker test for the document type, an ordered first-match rule
 * table for the payment method and three regular-expression captures for the
 * bank name, the account number and the FPS phone number.
 */
module Extraction {
  import opened Wrappers
  import opened Text
  import opened Regex

  datatype DocumentType = InsuranceClaimForm {
    /** The value the record holds for this document type. */
    function Name(): string { "Insurance Claim Form" }
  }

  datatype PaymentMethod = BankTransfer | Fps | Cheque {
    /** The value the record holds for this payment method (the key of its rule). */
    function Name(): string {
      match this
      case BankTransfer => "Bank Transfer"
      case Fps => "FPS"
      case Cheque => "Cheque"
    }
  }

  datatype BankAccount = BankAccount(
    holder: Option<string>,
    bank: Option<string>,
    number: Option<string>,
    currency: Option<string>)

  /** The record `extract_insurance_info` returns; every key is always present, a value may be None. */
  datatype InsuranceInfo = InsuranceInfo(
    documentType: Option<DocumentType>,
    paymentMethod: Option<PaymentMethod>,
    bankAccount: BankAccount,
    fpsPhone: Option<string>,
    chequeMethod: Option<string>)

  /** The record before any field is filled in. */
  const Blank := InsuranceInfo(None, None, BankAccount(None, None, None, None), None, None)

  // ---------------------------------------------------------------------------
  // Document type

  /** A text containing any of these (case-sensitively) is an insurance claim form. */
  const DocumentMarkers: seq<string> := ["Insurance Claim", "Policy", "Claim Form"]

  /** Python's `any(x in text for x in markers)`. */
  function ContainsAny(text: string, markers: seq<string>): (r: bool)
    ensures r <==> exists k :: 0 <= k < |markers| && Contains(text, markers[k])
  {
    if markers == [] then false
    else Contains(text, markers[0]) || ContainsAny(text, markers[1..])
  }

  function DocumentTypeOf(text: string): Option<DocumentType> {
    if ContainsAny(text, DocumentMarkers) then Some(InsuranceClaimForm) else None
  }

  // ---------------------------------------------------------------------------
  // Payment method

  /** A payment rule: the method it detects and the alternatives of its pattern. */
  datatype PaymentRule = PaymentRule(detects: PaymentMethod, alternatives: seq<string>)

  /** The rules in the order Python iterates over the pattern dictionary. */
  const PaymentRules: seq<PaymentRule> := [
    PaymentRule(BankTransfer, ["Direct Credit", "Bank Transfer"]),
    PaymentRule(Fps, ["FPS", "Fast Payment"]),
    PaymentRule(Cheque, ["Cheque", "Check"])
  ]

  /** Whether `re.search(alt1|alt2|..., text, re.IGNORECASE)` finds a match. */
  function RuleMatches(text: string, rule: PaymentRule): bool {
    AnyIgnoringCase(text, rule.alternatives)
  }

  function AnyIgnoringCase(text: string, words: seq<string>): (r: bool)
    ensures r <==> exists k :: 0 <= k < |words| && ContainsIgnoringCase(text, words[k])
  {
    if words == [] then false
    else ContainsIgnoringCase(text, words[0]) || AnyIgnoringCase(text, words[1..])
  }

  /** The method of the first rule that matches, as the loop with `break` assigns it. */
  function FirstMatchingRule(text: string, rules: seq<PaymentRule>): Option<PaymentMethod> {
    if rules == [] then None
    else if RuleMatches(text, rules[0]) then Some(rules[0].detects)
    else FirstMatchingRule(text, rules[1..])
  }

  /** The first rule that matches decides, and no rule matching leaves the method absent. */
  lemma {:induction false} FirstMatchingRuleSpec(text: string, rules: seq<PaymentRule>)
    ensures FirstMatchingRule(text, rules).None? <==> forall k :: 0 <= k < |rules| ==> !RuleMatches(text, rules[k])
    ensures forall k :: 0 <= k < |rules| && RuleMatches(text, rules[k]) &&
                        (forall j :: 0 <= j < k ==> !RuleMatches(text, rules[j])) ==>
                          FirstMatchingRule(text, rules) == Some(rules[k].detects)
  {
    if rules != [] {
      FirstMatchingRuleSpec(text, rules[1..]);
      assert forall k :: 1 <= k < |rules| ==> rules[1..][k - 1] == rules[k];
    }
  }

  // ---------------------------------------------------------------------------
  // Captures

  /** `Bank Name[:：]\s*(.+?)\n` */
  const BankNamePattern: Pattern := Literal("Bank Name") + BankNameTail

  /** `[:：]\s*(.+?)\n`: what follows the label `Bank Name`. */
  const BankNameTail: Pattern := [
    Piece(Colon, Once, false),
    Piece(Space, AtLeast(0, true), false),
    Piece(NotNewline, AtLeast(1, false), true),
    Piece(Exactly('\n'), Once, false)
  ]

  /** `Account No\.\s*[:：]\s*([0-9A-Z\s]+)\n` */
  const AccountNumberPattern: Pattern := Literal("Account No.") + KeyValueTail(DigitUpperSpace)

  /** `Phone\s*[:：]\s*([0-9\s]+)\n` */
  const PhonePattern: Pattern := Literal("Phone") + KeyValueTail(DigitSpace)

  /** `\s*[:：]\s*(cls+)\n`: what follows the labels `Account No.` and `Phone`. */
  function KeyValueTail(cls: CharClass): Pattern {
    [
      Piece(Space, AtLeast(0, true), false),
      Piece(Colon, Once, false),
      Piece(Space, AtLeast(0, true), false),
      Piece(cls, AtLeast(1, true), true),
      Piece(Exactly('\n'), Once, false)
    ]
  }

  function BankNameOf(text: string): Option<string> {
    match Capture(text, BankNamePattern)
    case None => None
    case Some(v) => Some(Strip(v))
  }

  function AccountNumberOf(text: string): Option<string> {
    match Capture(text, AccountNumberPattern)
    case None => None
    case Some(v) => Some(JoinWords(v))
  }

  function PhoneOf(text: string): Option<string> {
    match Capture(text, PhonePattern)
    case None => None
    case Some(v) => Some(Replace(v, ' ', ""))
  }

  /** What `extract_insurance_info(text)` returns. */
  function Extracted(text: string): InsuranceInfo {
    InsuranceInfo(
      DocumentTypeOf(text),
      FirstMatchingRule(text, PaymentRules),
      BankAccount(None, BankNameOf(text), AccountNumberOf(text), None),
      PhoneOf(text),
      None)
  }

  /** `extract_insurance_info`: starts from the blank record and fills in the fields one by one. */
  method ExtractInsuranceInfo(text: string) returns (data: InsuranceInfo)
    ensures data == Extracted(text)
  {
    data := Blank;

    if ContainsAny(text, DocumentMarkers) {
      data := data.(documentType := Some(InsuranceClaimForm));
    }

    for i := 0 to |PaymentRules|
      invariant data == Blank.(documentType := DocumentTypeOf(text))
      invariant FirstMatchingRule(text, PaymentRules) == FirstMatchingRule(text, PaymentRules[i..])
    {
      assert PaymentRules[i..][1..] == PaymentRules[i + 1..];
      if RuleMatches(text, PaymentRules[i]) {
        data := data.(paymentMethod := Some(PaymentRules[i].detects));
        break;
      }
    }

    var bank := Capture(text, BankNamePattern);
    if bank.Some? {
      data := data.(bankAccount := data.bankAccount.(bank := Some(Strip(bank.value))));
    }

    var number := Capture(text, AccountNumberPattern);
    if number.Some? {
      data := data.(bankAccount := data.bankAccount.(number := Some(JoinWords(number.value))));
    }

    var phone := Capture(text, PhonePattern);
    if phone.Some? {
      data := data.(fpsPhone := Some(Replace(phone.value, ' ', "")));
    }
  }

  // ---------------------------------------------------------------------------
  // Properties of the extraction

  /** Every key is always present; holder, currency and cheque_method are never filled in. */
  lemma ReservedFieldsAlwaysAbsent(text: string)
    ensures Extracted(text).bankAccount.holder == None
    ensures Extracted(text).bankAccount.currency == None
    ensures Extracted(text).chequeMethod == None
  {
  }

  /** The document is a claim form exactly when one of the markers occurs, with its exact case. */
  lemma DocumentTypeByMarkers(text: string)
    ensures Extracted(text).documentType == Some(InsuranceClaimForm) <==>
      exists k: nat, i: nat :: k < |DocumentMarkers| && OccursAt(text, DocumentMarkers[k], i)
    ensures Extracted(text).documentType == None <==>
      forall k: nat, i: nat :: k < |DocumentMarkers| ==> !OccursAt(text, DocumentMarkers[k], i)
  {
  }

  /** The rules are tried in the order Bank Transfer, FPS, Cheque; the first that matches decides. */
  lemma PaymentMethodByFirstRule(text: string)
    ensures Extracted(text).paymentMethod == Some(BankTransfer) <==> RuleMatches(text, PaymentRules[0])
    ensures Extracted(text).paymentMethod == Some(Fps) <==>
      !RuleMatches(text, PaymentRules[0]) && RuleMatches(text, PaymentRules[1])
    ensures Extracted(text).paymentMethod == Some(Cheque) <==>
      !RuleMatches(text, PaymentRules[0]) && !RuleMatches(text, PaymentRules[1]) && RuleMatches(text, PaymentRules[2])
    ensures Extracted(text).paymentMethod == None <==>
      !RuleMatches(text, PaymentRules[0]) && !RuleMatches(text, PaymentRules[1]) && !RuleMatches(text, PaymentRules[2])
  {
    FirstMatchingRuleSpec(text, PaymentRules);
  }

  /** Every capture pattern ends in a newline, so a text without one captures nothing. */
  lemma NoNewlineNoCaptures(text: string)
    requires '\n' !in text
    ensures Extracted(text).bankAccount.bank == None
    ensures Extracted(text).bankAccount.number == None
    ensures Extracted(text).fpsPhone == None
  {
    MissingCharNoCapture(text, BankNamePattern, |BankNamePattern| - 1, '\n');
    MissingCharNoCapture(text, AccountNumberPattern, |AccountNumberPattern| - 1, '\n');
    MissingCharNoCapture(text, PhonePattern, |PhonePattern| - 1, '\n');
  }

  /** Empty or whitespace-only text gives the blank record. */
  lemma BlankTextGivesBlankRecord(text: string)
    requires AllSpace(text)
    ensures Extracted(text) == Blank
  {
    forall k | 0 <= k < |DocumentMarkers| ensures !Contains(text, DocumentMarkers[k]) {
      FirstCharAbsent(text, DocumentMarkers[k]);
    }
    forall r, k | r in PaymentRules && 0 <= k < |r.alternatives| ensures !ContainsIgnoringCase(text, r.alternatives[k]) {
      FirstCharAbsentIgnoringCase(text, r.alternatives[k]);
    }
    assert !RuleMatches(text, PaymentRules[0]) && !RuleMatches(text, PaymentRules[1]) && !RuleMatches(text, PaymentRules[2]);
    assert !ContainsAny(text, DocumentMarkers);
    assert 'B' !in text && 'A' !in text && 'P' !in text;
    MissingCharNoCapture(text, BankNamePattern, 0, 'B');
    MissingCharNoCapture(text, AccountNumberPattern, 0, 'A');
    MissingCharNoCapture(text, PhonePattern, 0, 'P');
    assert FirstMatchingRule(text, PaymentRules[2..]) == None;
    assert FirstMatchingRule(text, PaymentRules[1..]) == None;
    assert FirstMatchingRule(text, PaymentRules) == None;
  }

  /** The character class of every group piece of `ps`. */
  ghost predicate GroupClassIs(ps: Pattern, cls: CharClass) {
    forall k :: 0 <= k < |ps| && ps[k].group ==> ps[k].cls == cls
  }

  /** Every character of a capture belongs to the class of its group. */
  lemma CaptureInClass(text: string, ps: Pattern, cls: CharClass)
    requires GroupClassIs(ps, cls) && Capture(text, ps).Some?
    ensures forall k :: 0 <= k < |Capture(text, ps).value| ==> InClass(cls, Capture(text, ps).value[k])
  {
    SearchCorrect(text, ps);
    var m := Search(text, ps).value;
    GroupInClass(text, m.0, ps, m.1, cls);
  }

  /** A captured bank name is one line with no whitespace at either end; it may be empty. */
  lemma BankNameShape(text: string)
    ensures BankNameOf(text).Some? ==>
      var b := BankNameOf(text).value;
      '\n' !in b && (b == [] || (!IsSpace(b[0]) && !IsSpace(b[|b| - 1])))
  {
    if Capture(text, BankNamePattern).Some? {
      var g := Capture(text, BankNamePattern).value;
      BankNameGroupClass();
      CaptureInClass(text, BankNamePattern, NotNewline);
      StripOfLine(g);
    }
  }

  lemma BankNameGroupClass()
    ensures GroupClassIs(BankNamePattern, NotNewline)
  {
  }

  lemma StripOfLine(g: string)
    requires forall k :: 0 <= k < |g| ==> InClass(NotNewline, g[k])
    ensures '\n' !in Strip(g)
  {
    var i, j :| 0 <= i <= j <= |g| && Strip(g) == g[i..j];
    assert forall k :: 0 <= k < j - i ==> Strip(g)[k] == g[i + k];
  }

  /** A captured account number consists of ASCII digits and capital letters only. */
  lemma AccountNumberShape(text: string)
    ensures AccountNumberOf(text).Some? ==>
      var n := AccountNumberOf(text).value;
      forall k :: 0 <= k < |n| ==> IsDigit(n[k]) || IsUpper(n[k])
  {
    if Capture(text, AccountNumberPattern).Some? {
      var g := Capture(text, AccountNumberPattern).value;
      AccountNumberGroupClass();
      CaptureInClass(text, AccountNumberPattern, DigitUpperSpace);
      JoinWordsOfValue(g);
    }
  }

  lemma AccountNumberGroupClass()
    ensures GroupClassIs(AccountNumberPattern, DigitUpperSpace)
  {
  }

  lemma JoinWordsOfValue(g: string)
    requires forall k :: 0 <= k < |g| ==> InClass(DigitUpperSpace, g[k])
    ensures var n := JoinWords(g); forall k :: 0 <= k < |n| ==> IsDigit(n[k]) || IsUpper(n[k])
  {
    var n := JoinWords(g);
    NonSpaceCount(g);
    forall k | 0 <= k < |n| ensures IsDigit(n[k]) || IsUpper(n[k]) {
      assert multiset(n)[n[k]] > 0;
      assert n[k] in g;
    }
  }

  /**
   * A captured phone number consists of digits and whitespace other than the
   * space: only spaces are removed, so tabs and line breaks inside it remain.
   */
  lemma PhoneShape(text: string)
    ensures PhoneOf(text).Some? ==>
      var p := PhoneOf(text).value;
      forall k :: 0 <= k < |p| ==> IsDigit(p[k]) || (IsSpace(p[k]) && p[k] != ' ')
  {
    if Capture(text, PhonePattern).Some? {
      var g := Capture(text, PhonePattern).value;
      PhoneGroupClass();
      CaptureInClass(text, PhonePattern, DigitSpace);
      ReplaceOfValue(g);
      assert PhoneOf(text) == Some(Replace(g, ' ', ""));
    }
  }

  lemma PhoneGroupClass()
    ensures GroupClassIs(PhonePattern, DigitSpace)
  {
  }

  lemma ReplaceOfValue(g: string)
    requires forall k :: 0 <= k < |g| ==> InClass(DigitSpace, g[k])
    ensures var p := Replace(g, ' ', ""); forall k :: 0 <= k < |p| ==> IsDigit(p[k]) || (IsSpace(p[k]) && p[k] != ' ')
  {
    var p := Replace(g, ' ', "");
    ReplaceCount(g, ' ', "");
    forall k | 0 <= k < |p| ensures IsDigit(p[k]) || (IsSpace(p[k]) && p[k] != ' ') {
      assert multiset(p)[p[k]] > 0;
      assert p[k] in g;
    }
  }

  /** A field is captured only when its label occurs in the text, anywhere (not only at a line start). */
  lemma CapturesNeedLabels(text: string)
    ensures BankNameOf(text).Some? ==> Contains(text, "Bank Name")
    ensures AccountNumberOf(text).Some? ==> Contains(text, "Account No.")
    ensures PhoneOf(text).Some? ==> Contains(text, "Phone")
  {
    LabelOccurs(text, "Bank Name", BankNamePattern[9..]);
    LabelOccurs(text, "Account No.", AccountNumberPattern[11..]);
    LabelOccurs(text, "Phone", PhonePattern[5..]);
  }

  lemma LabelOccurs(text: string, word: string, rest: Pattern)
    ensures Capture(text, Literal(word) + rest).Some? ==> Contains(text, word)
  {
    SearchCorrect(text, Literal(word) + rest);
    if Search(text, Literal(word) + rest).Some? {
      var m := Search(text, Literal(word) + rest).value;
      FitsLiteralPrefix(text, m.0, word, rest, m.1);
    }
  }
}
