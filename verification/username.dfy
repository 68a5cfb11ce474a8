/** Login names derived from a person's name and phone number.

    Both controllers carry an identical private `GenerateUsername`: a
    four-character name part (the first four characters, lower-cased, or the
    whole lower-cased name right-padded with 'x') followed by a one- to
    four-character number part (the first four characters of the phone text,
    the whole text when shorter, or "0000" when empty).

    A "character" here is a Unicode character, whereas C# counts UTF-16 code
    units; the two differ only for names with characters outside the Basic
    Multilingual Plane. */
module Username {
  import opened Tables
  import opened Text

  const NameWidth := 4
  const DigitWidth := 4
  const PadChar := 'x'
  const DefaultDigits := "0000"

  function NamePart(name: string): (r: string)
    ensures |r| == NameWidth
    ensures forall i :: 0 <= i < NameWidth ==>
              r[i] == if i < |name| then LowerChar(name[i]) else PadChar
  {
    if |name| >= NameWidth then Lower(name[..NameWidth])
    else PadRight(Lower(name), NameWidth, PadChar)
  }

  function DigitPart(phone: string): (r: string)
    ensures 1 <= |r| <= DigitWidth
    ensures |phone| == 0 ==> r == DefaultDigits
    ensures |phone| > 0 ==> |r| == Min(|phone|, DigitWidth) && r == phone[..|r|]
  {
    if |phone| > 0 && |phone| >= DigitWidth then phone[..DigitWidth]
    else if |phone| > 0 then phone
    else DefaultDigits
  }

  /** `GenerateUsername(name, phone)`. */
  function GenerateUsername(name: string, phone: string): (r: string)
    ensures NameWidth + 1 <= |r| <= NameWidth + DigitWidth
    ensures r[..NameWidth] == NamePart(name)
    ensures r[NameWidth..] == DigitPart(phone)
  {
    NamePart(name) + DigitPart(phone)
  }

  /** Phone text at the create-student call site: `FatherNumber.ToString()`,
      which is "" for a missing number. */
  function PhoneText(n: Option<int>): string {
    match n
    case Some(v) => Decimal(v)
    case None => ""
  }

  /** Phone text at the other call sites: `number?.ToString() ?? "0000"`. */
  function PhoneTextOrDefault(n: Option<int>): string {
    match n
    case Some(v) => Decimal(v)
    case None => DefaultDigits
  }

  /** The two call-site conventions derive the same login name; a missing
      number always yields the number part "0000". */
  lemma PhoneConventionsAgree(name: string, n: Option<int>)
    ensures GenerateUsername(name, PhoneText(n)) == GenerateUsername(name, PhoneTextOrDefault(n))
    ensures n.None? ==> GenerateUsername(name, PhoneText(n))[NameWidth..] == DefaultDigits
  {
  }

  /** Two derivations agree exactly when their name parts and number parts
      agree: the name part has fixed width, so the split is unambiguous. */
  lemma UsernameEqualIff(n1: string, p1: string, n2: string, p2: string)
    ensures GenerateUsername(n1, p1) == GenerateUsername(n2, p2) <==>
            NamePart(n1) == NamePart(n2) && DigitPart(p1) == DigitPart(p2)
  {
    var u1 := GenerateUsername(n1, p1);
    var u2 := GenerateUsername(n2, p2);
    if u1 == u2 {
      assert u1[..NameWidth] == u2[..NameWidth];
      assert u1[NameWidth..] == u2[NameWidth..];
    }
  }

  /** Only the first four characters of the name (up to ASCII case) and the
      first four characters of the phone text matter. */
  lemma UsernameIgnoresTail(name: string, phone: string, nameTail: string, phoneTail: string)
    requires |name| >= NameWidth && |phone| >= DigitWidth
    ensures GenerateUsername(name + nameTail, phone + phoneTail) == GenerateUsername(name, phone)
  {
    assert (name + nameTail)[..NameWidth] == name[..NameWidth];
    assert (phone + phoneTail)[..DigitWidth] == phone[..DigitWidth];
  }

  /** The name part never holds an upper-case ASCII letter. */
  lemma NamePartIsLowerCase(name: string)
    ensures forall i :: 0 <= i < NameWidth ==> !('A' <= NamePart(name)[i] <= 'Z')
  {
  }

  /** For a non-negative phone number the number part is all digits. */
  lemma DigitPartOfNumberIsNumeric(name: string, n: nat)
    ensures forall i :: NameWidth <= i < |GenerateUsername(name, Decimal(n))| ==>
              IsDigit(GenerateUsername(name, Decimal(n))[i])
  {
    var u := GenerateUsername(name, Decimal(n));
    forall i | NameWidth <= i < |u| ensures IsDigit(u[i]) {
      assert u[i] == DigitPart(Decimal(n))[i - NameWidth];
      assert u[i] == Decimal(n)[i - NameWidth];
    }
  }

  /** Worked examples: a long name and number, a short name with no number,
      and an empty name with a two-digit number (which is NOT zero-padded). */
  lemma UsernameExamples()
    ensures GenerateUsername("Anjali", "9876543210") == "anja9876"
    ensures GenerateUsername("Al", "") == "alxx0000"
    ensures GenerateUsername("", "55") == "xxxx55"
  {
    assert NamePart("Anjali") == "anja";
    assert NamePart("Al") == "alxx";
    assert NamePart("") == "xxxx";
  }
}
