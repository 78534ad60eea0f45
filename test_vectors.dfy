/**
 * The concrete cases the crate's tests and documentation use, derived from the
 * model's general lemmas. Long literals are taken apart in chunks of four
 * characters, so that each step stays small.
 */
module TestVectors {
  import opened Wrappers
  import opened Text
  import opened IntParse
  import opened RawValue
  import opened PercentDecoding
  import opened PhoneSanitizer
  import Lib
  import CustomStrings
  import Convert

  // deserialize_u64 on "0123456789": leading zeros are allowed.

  lemma U64Numeral()
    ensures IsNumeral("0123456789", 10)
  {
    assert forall i :: 0 <= i < 10 ==> '0' <= "0123456789"[i] <= '9';
  }

  lemma U64Prefixes()
    ensures "0123456789"[..9] == "012345678" && "012345678"[..8] == "01234567"
    ensures "01234567"[..7] == "0123456" && "0123456"[..6] == "012345"
    ensures "012345"[..5] == "01234" && "01234"[..4] == "0123"
    ensures "0123"[..3] == "012" && "012"[..2] == "01"
    ensures "01"[..1] == "0" && "0"[..0] == []
  {
  }

  lemma U64Value()
    ensures IsNumeral("0123456789", 10) && Value("0123456789", 10) == 123456789
  {
    U64Numeral();
    U64Prefixes();
  }

  /** `"0123456789"` is 123456789; a sign other than `+` is an error; a number is not a string. */
  lemma U64Example()
    ensures Lib.DeserializeU64(Str("0123456789")) == Ok(123456789)
    ensures Lib.DeserializeU64(Str("-1")).Err?
    ensures Lib.DeserializeU64(Int(5)) == Err(InvalidType)
  {
    U64Value();
    Lib.DeserializeU64Spec("0123456789");
    Lib.DeserializeU64Spec("-1");
    assert DigitValue('-', 10).None?;
  }

  // deserialize_phone_number (no trimming) on "+49 11 231 2312 3123".

  lemma PhoneDigits0() ensures Digits("+49 ") == "49" {}

  lemma PhoneDigits1() ensures Digits("11 2") == "112" {}

  lemma PhoneDigits2() ensures Digits("31 2") == "312" {}

  lemma PhoneDigits3() ensures Digits("312 ") == "312" {}

  lemma PhoneDigits4() ensures Digits("3123") == "3123" {}

  lemma PhoneDigitsJoin()
    ensures "+49 " + "11 2" + "31 2" + "312 " + "3123" == "+49 11 231 2312 3123"
    ensures "49" + "112" + "312" + "312" + "3123" == "491123123123123"
  {
  }

  lemma PhonePlus()
    ensures ['+'] + "491123123123123" == "+491123123123123"
  {
  }

  lemma PhoneDigits()
    ensures Digits("+49 11 231 2312 3123") == "491123123123123"
  {
    PhoneDigits0();
    PhoneDigits1();
    PhoneDigits2();
    PhoneDigits3();
    PhoneDigits4();
    PhoneDigitsJoin();
    DigitsAppend("+49 ", "11 2");
    DigitsAppend("+49 " + "11 2", "31 2");
    DigitsAppend("+49 " + "11 2" + "31 2", "312 ");
    DigitsAppend("+49 " + "11 2" + "31 2" + "312 ", "3123");
  }

  lemma PhoneSanitized(s: seq<char>)
    requires s == "+49 11 231 2312 3123"
    ensures Sanitize(s) == "+491123123123123"
  {
    PhoneDigits();
    PhonePlus();
    SanitizeLeadingPlus(s);
  }

  lemma PhoneExample()
    ensures Lib.DeserializePhoneNumber(Str("+49 11 231 2312 3123")) == Ok("+491123123123123")
  {
    PhoneSanitized("+49 11 231 2312 3123");
    SanitizeIsReplaceAll("+49 11 231 2312 3123");
  }

  lemma PhoneSpaceRun()
    ensures NonDigitRun(" +49 1", 0) == 2
  {
    var s := " +49 1";
    assert !IsDigit(s[0]) && !IsDigit(s[1]) && IsDigit(s[2]);
    RunUnique(s, 0, 2);
  }

  lemma PhoneSpaceSplit()
    ensures " +49 1"[..2] == " +" && " +49 1"[2..] == "49 1"
    ensures Digits("49 1") == "491" && " +" + "491" == " +491"
  {
  }

  lemma PhoneSpacePrefix()
    ensures Sanitize(" +49 1") == " +491"
  {
    PhoneSpaceRun();
    PhoneSpaceSplit();
    SanitizeClosedForm(" +49 1");
  }

  lemma PhoneLetterRun()
    ensures NonDigitRun("a+49", 0) == 2
  {
    var s := "a+49";
    assert !IsDigit(s[0]) && !IsDigit(s[1]) && IsDigit(s[2]);
    RunUnique(s, 0, 2);
  }

  lemma PhoneLetterSplit()
    ensures "a+49"[..2] == "a+" && "a+49"[2..] == "49"
    ensures Digits("49") == "49" && "a+" + "49" == "a+49"
  {
  }

  lemma PhoneLetterPrefix()
    ensures Sanitize("a+49") == "a+49"
  {
    PhoneLetterRun();
    PhoneLetterSplit();
    SanitizeClosedForm("a+49");
  }

  /** A digit-free prefix that does not start with `+` survives the rewrite. */
  lemma PhonePrefixExamples()
    ensures Lib.DeserializePhoneNumber(Str(" +49 1")) == Ok(" +491")
    ensures Lib.DeserializePhoneNumber(Str("a+49")) == Ok("a+49")
  {
    PhoneSpacePrefix();
    SanitizeIsReplaceAll(" +49 1");
    PhoneLetterPrefix();
    SanitizeIsReplaceAll("a+49");
  }

  // deserialize_email (no trimming) on "Test@Test.De".

  lemma EmailLower0() ensures Lower("Test") == "test" {
    assert forall i :: 0 <= i < 4 ==> LowerChar("Test"[i]) == "test"[i];
  }

  lemma EmailLower1() ensures Lower("@Tes") == "@tes" {
    assert forall i :: 0 <= i < 4 ==> LowerChar("@Tes"[i]) == "@tes"[i];
  }

  lemma EmailLower2() ensures Lower("t.De") == "t.de" {
    assert forall i :: 0 <= i < 4 ==> LowerChar("t.De"[i]) == "t.de"[i];
  }

  lemma EmailLowerJoin()
    ensures "Test" + "@Tes" + "t.De" == "Test@Test.De"
    ensures "test" + "@tes" + "t.de" == "test@test.de"
  {
  }

  lemma EmailLower()
    ensures Lower("Test@Test.De") == "test@test.de"
  {
    EmailLower0();
    EmailLower1();
    EmailLower2();
    EmailLowerJoin();
    LowerAppend("Test", "@Tes");
    LowerAppend("Test" + "@Tes", "t.De");
  }

  lemma EmailExample()
    ensures Lib.DeserializeEmail(Str("Test@Test.De")) == Ok("test@test.de")
  {
    EmailLower();
  }

  // custom_strings::deserialize_phone_number: trimmed, lower-cased, rewritten, validated.

  lemma CustomPhoneLower0() ensures Lower("++49") == "++49" {
    LowerIdentity("++49");
  }

  lemma CustomPhoneLower1() ensures Lower("175/") == "175/" {
    LowerIdentity("175/");
  }

  lemma CustomPhoneLower2() ensures Lower("/332") == "/332" {
    LowerIdentity("/332");
  }

  lemma CustomPhoneLower3() ensures Lower("3+67") == "3+67" {
    LowerIdentity("3+67");
  }

  lemma CustomPhoneLower4() ensures Lower("  24") == "  24" {
    LowerIdentity("  24");
  }

  lemma CustomPhoneLowerJoin()
    ensures "++49" + "175/" + "/332" + "3+67" + "  24" == "++49175//3323+67  24"
  {
  }

  lemma CustomPhoneLower()
    ensures Lower("++49175//3323+67  24") == "++49175//3323+67  24"
  {
    CustomPhoneLower0();
    CustomPhoneLower1();
    CustomPhoneLower2();
    CustomPhoneLower3();
    CustomPhoneLower4();
    CustomPhoneLowerJoin();
    LowerAppend("++49", "175/");
    LowerAppend("++49" + "175/", "/332");
    LowerAppend("++49" + "175/" + "/332", "3+67");
    LowerAppend("++49" + "175/" + "/332" + "3+67", "  24");
  }
  lemma CustomPhoneDigits0() ensures Digits("++49") == "49" {}

  lemma CustomPhoneDigits1() ensures Digits("175/") == "175" {}

  lemma CustomPhoneDigits2() ensures Digits("/332") == "332" {}

  lemma CustomPhoneDigits3() ensures Digits("3+67") == "367" {}

  lemma CustomPhoneDigits4() ensures Digits("  24") == "24" {}

  lemma CustomPhoneDigitsJoin()
    ensures "++49" + "175/" + "/332" + "3+67" + "  24" == "++49175//3323+67  24"
    ensures "49" + "175" + "332" + "367" + "24" == "4917533236724"
  {
  }

  lemma CustomPhonePlus()
    ensures ['+'] + "4917533236724" == "+4917533236724"
  {
  }

  lemma CustomPhoneDigits()
    ensures Digits("++49175//3323+67  24") == "4917533236724"
  {
    CustomPhoneDigits0();
    CustomPhoneDigits1();
    CustomPhoneDigits2();
    CustomPhoneDigits3();
    CustomPhoneDigits4();
    CustomPhoneDigitsJoin();
    DigitsAppend("++49", "175/");
    DigitsAppend("++49" + "175/", "/332");
    DigitsAppend("++49" + "175/" + "/332", "3+67");
    DigitsAppend("++49" + "175/" + "/332" + "3+67", "  24");
  }

  lemma CustomPhoneTrim()
    ensures Trim("++49175//3323+67  24") == "++49175//3323+67  24"
  {
    TrimIdentity("++49175//3323+67  24");
  }

  lemma CustomPhoneNormal()
    ensures CustomStrings.Normalize("++49175//3323+67  24") == "++49175//3323+67  24"
  {
    CustomPhoneTrim();
    CustomPhoneLower();
  }

  lemma CustomPhoneSanitized(s: seq<char>)
    requires s == "++49175//3323+67  24"
    ensures Sanitize(s) == "+4917533236724"
  {
    CustomPhoneDigits();
    CustomPhonePlus();
    SanitizeLeadingPlus(s);
  }

  /** A repeated leading `+` survives once, and a later `+` is dropped. */
  lemma CustomPhoneExample(validPhone: seq<char> -> bool)
    requires validPhone("+4917533236724")
    ensures CustomStrings.DeserializePhoneNumber(Str("++49175//3323+67  24"), validPhone) == Ok("+4917533236724")
  {
    CustomPhoneNormal();
    CustomPhoneSanitized("++49175//3323+67  24");
    SanitizeIsReplaceAll("++49175//3323+67  24");
  }

  lemma PaddedPhoneTrim()
    ensures TrimStart(" +49 1 ") == "+49 1 " && TrimEnd("+49 1 ") == "+49 1"
  {
    assert " +49 1 "[1..] == "+49 1 ";
    assert "+49 1 "[..5] == "+49 1";
  }

  lemma PaddedPhoneLower()
    ensures Lower("+49 1") == "+49 1"
  {
    LowerIdentity("+49 1");
  }

  lemma PaddedPhoneSanitized()
    ensures Sanitize("+49 1") == "+491"
  {
    assert Digits("+49 1") == "491";
    SanitizeLeadingPlus("+49 1");
  }

  /** Surrounding white space is trimmed before the rewrite, unlike in the crate-root variant. */
  lemma PaddedPhoneExample(validPhone: seq<char> -> bool)
    requires validPhone("+491")
    ensures CustomStrings.DeserializePhoneNumber(Str(" +49 1 "), validPhone) == Ok("+491")
  {
    PaddedPhoneTrim();
    PaddedPhoneLower();
    PaddedPhoneSanitized();
    SanitizeIsReplaceAll("+49 1");
  }

  // custom_strings::deserialize_phone_number on the other test numbers.

  lemma MobilePhoneChunks()
    ensures "+49 " + "1571" + " 231" + " 231" + "2" == "+49 1571 231 2312"
  {
  }

  lemma MobilePhoneLower()
    ensures Lower("+49 1571 231 2312") == "+49 1571 231 2312"
  {
    LowerIdentity("+49 ");
    LowerIdentity("1571");
    LowerIdentity(" 231");
    LowerIdentity(" 231");
    LowerIdentity("2");
    MobilePhoneChunks();
    LowerAppend("+49 ", "1571");
    LowerAppend("+49 " + "1571", " 231");
    LowerAppend("+49 " + "1571" + " 231", " 231");
    LowerAppend("+49 " + "1571" + " 231" + " 231", "2");
  }

  lemma MobilePhoneDigits0() ensures Digits("1571") == "1571" {}

  lemma MobilePhoneDigits1() ensures Digits(" 231") == "231" {}

  lemma MobilePhoneDigits2() ensures Digits("2") == "2" {}

  lemma MobilePhoneDigitsJoin()
    ensures "49" + "1571" + "231" + "231" + "2" == "4915712312312"
  {
  }

  lemma MobilePhoneDigits()
    ensures Digits("+49 1571 231 2312") == "4915712312312"
  {
    PhoneDigits0();
    MobilePhoneDigits0();
    MobilePhoneDigits1();
    MobilePhoneDigits2();
    MobilePhoneChunks();
    MobilePhoneDigitsJoin();
    DigitsAppend("+49 ", "1571");
    DigitsAppend("+49 " + "1571", " 231");
    DigitsAppend("+49 " + "1571" + " 231", " 231");
    DigitsAppend("+49 " + "1571" + " 231" + " 231", "2");
  }

  lemma MobilePhonePlus()
    ensures ['+'] + "4915712312312" == "+4915712312312"
  {
  }

  lemma MobilePhoneNormal()
    ensures CustomStrings.Normalize("+49 1571 231 2312") == "+49 1571 231 2312"
  {
    TrimIdentity("+49 1571 231 2312");
    MobilePhoneLower();
  }

  lemma MobilePhoneSanitized(s: seq<char>)
    requires s == "+49 1571 231 2312"
    ensures Sanitize(s) == "+4915712312312"
  {
    MobilePhoneDigits();
    MobilePhonePlus();
    SanitizeLeadingPlus(s);
  }

  /** Spaces between the groups are dropped: `"+49 1571 231 2312"`. */
  lemma MobilePhoneExample(validPhone: seq<char> -> bool)
    requires validPhone("+4915712312312")
    ensures CustomStrings.DeserializePhoneNumber(Str("+49 1571 231 2312"), validPhone) == Ok("+4915712312312")
  {
    MobilePhoneNormal();
    MobilePhoneSanitized("+49 1571 231 2312");
    SanitizeIsReplaceAll("+49 1571 231 2312");
  }

  lemma DashPhoneChunks()
    ensures "+49 " + "175/" + "3323" + "-672" + "4" == "+49 175/3323-6724"
  {
  }

  lemma DashPhoneLower()
    ensures Lower("+49 175/3323-6724") == "+49 175/3323-6724"
  {
    LowerIdentity("+49 ");
    LowerIdentity("175/");
    LowerIdentity("3323");
    LowerIdentity("-672");
    LowerIdentity("4");
    DashPhoneChunks();
    LowerAppend("+49 ", "175/");
    LowerAppend("+49 " + "175/", "3323");
    LowerAppend("+49 " + "175/" + "3323", "-672");
    LowerAppend("+49 " + "175/" + "3323" + "-672", "4");
  }

  lemma DashPhoneDigits0() ensures Digits("3323") == "3323" {}

  lemma DashPhoneDigits1() ensures Digits("-672") == "672" {}

  lemma DashPhoneDigits2() ensures Digits("4") == "4" {}

  lemma DashPhoneDigitsJoin()
    ensures "49" + "175" + "3323" + "672" + "4" == "4917533236724"
  {
  }

  lemma DashPhoneDigits()
    ensures Digits("+49 175/3323-6724") == "4917533236724"
  {
    PhoneDigits0();
    CustomPhoneDigits1();
    DashPhoneDigits0();
    DashPhoneDigits1();
    DashPhoneDigits2();
    DashPhoneChunks();
    DashPhoneDigitsJoin();
    DigitsAppend("+49 ", "175/");
    DigitsAppend("+49 " + "175/", "3323");
    DigitsAppend("+49 " + "175/" + "3323", "-672");
    DigitsAppend("+49 " + "175/" + "3323" + "-672", "4");
  }

  lemma DashPhonePlus()
    ensures ['+'] + "4917533236724" == "+4917533236724"
  {
  }

  lemma DashPhoneNormal()
    ensures CustomStrings.Normalize("+49 175/3323-6724") == "+49 175/3323-6724"
  {
    TrimIdentity("+49 175/3323-6724");
    DashPhoneLower();
  }

  lemma DashPhoneSanitized(s: seq<char>)
    requires s == "+49 175/3323-6724"
    ensures Sanitize(s) == "+4917533236724"
  {
    DashPhoneDigits();
    DashPhonePlus();
    SanitizeLeadingPlus(s);
  }

  /** A slash and a dash between the groups are dropped: `"+49 175/3323-6724"`. */
  lemma DashPhoneExample(validPhone: seq<char> -> bool)
    requires validPhone("+4917533236724")
    ensures CustomStrings.DeserializePhoneNumber(Str("+49 175/3323-6724"), validPhone) == Ok("+4917533236724")
  {
    DashPhoneNormal();
    DashPhoneSanitized("+49 175/3323-6724");
    SanitizeIsReplaceAll("+49 175/3323-6724");
  }

  lemma CityPhoneChunks()
    ensures "+49 " + "221 " + "345 " + "46" == "+49 221 345 46"
  {
  }

  lemma CityPhoneLower()
    ensures Lower("+49 221 345 46") == "+49 221 345 46"
  {
    LowerIdentity("+49 ");
    LowerIdentity("221 ");
    LowerIdentity("345 ");
    LowerIdentity("46");
    CityPhoneChunks();
    LowerAppend("+49 ", "221 ");
    LowerAppend("+49 " + "221 ", "345 ");
    LowerAppend("+49 " + "221 " + "345 ", "46");
  }

  lemma CityPhoneDigits0() ensures Digits("221 ") == "221" {}

  lemma CityPhoneDigits1() ensures Digits("345 ") == "345" {}

  lemma CityPhoneDigits2() ensures Digits("46") == "46" {}

  lemma CityPhoneDigitsJoin()
    ensures "49" + "221" + "345" + "46" == "4922134546"
  {
  }

  lemma CityPhoneDigits()
    ensures Digits("+49 221 345 46") == "4922134546"
  {
    PhoneDigits0();
    CityPhoneDigits0();
    CityPhoneDigits1();
    CityPhoneDigits2();
    CityPhoneChunks();
    CityPhoneDigitsJoin();
    DigitsAppend("+49 ", "221 ");
    DigitsAppend("+49 " + "221 ", "345 ");
    DigitsAppend("+49 " + "221 " + "345 ", "46");
  }

  lemma CityPhonePlus()
    ensures ['+'] + "4922134546" == "+4922134546"
  {
  }

  lemma CityPhoneNormal()
    ensures CustomStrings.Normalize("+49 221 345 46") == "+49 221 345 46"
  {
    TrimIdentity("+49 221 345 46");
    CityPhoneLower();
  }

  lemma CityPhoneSanitized(s: seq<char>)
    requires s == "+49 221 345 46"
    ensures Sanitize(s) == "+4922134546"
  {
    CityPhoneDigits();
    CityPhonePlus();
    SanitizeLeadingPlus(s);
  }

  /** A short number with spaces: `"+49 221 345 46"`. */
  lemma CityPhoneExample(validPhone: seq<char> -> bool)
    requires validPhone("+4922134546")
    ensures CustomStrings.DeserializePhoneNumber(Str("+49 221 345 46"), validPhone) == Ok("+4922134546")
  {
    CityPhoneNormal();
    CityPhoneSanitized("+49 221 345 46");
    SanitizeIsReplaceAll("+49 221 345 46");
  }

  // The percent-decoder.

  /** Decoded characters are not decoded again: `%25` yields a literal `%`. */
  lemma DecodeNotRescanned()
    ensures Decode("%2541") == Ok("%41")
  {
    DecodeEscape([], '2', '5', "41");
    DecodeNoEscape("41");
    assert HexValue('2') == 2 && HexValue('5') == 5;
    assert [] + ['%', '2', '5'] + "41" == "%2541";
    assert [] + [37 as char] + "41" == "%41";
  }

  lemma DecodeSlash()
    ensures Decode("%2F") == Ok("/") && Decode("%2f") == Ok("/")
  {
    DecodeEscape([], '2', 'F', []);
    DecodeEscape([], '2', 'f', []);
    assert HexValue('2') == 2 && HexValue('F') == 15 && HexValue('f') == 15;
    assert [] + ['%', '2', 'F'] + [] == "%2F";
    assert [] + ['%', '2', 'f'] + [] == "%2f";
    assert [] + [47 as char] + [] == "/";
  }

  lemma DecodeFailures()
    ensures Decode("%2G") == Err(ParseInt(InvalidDigit))
    ensures Decode("abc%2") == Err(IndexError)
  {
    DecodeInvalidPair([], '2', 'G', []);
    assert [] + ['%', '2', 'G'] + [] == "%2G";
    DecodeNoEscape("abc");
    DecodeTruncated("abc", "2");
    assert "abc" + ['%'] + "2" == "abc%2";
  }

  /** The byte parser admits a leading `+`, so `%+a` is the character with code 10. */
  lemma DecodePlusPair()
    ensures Decode("%+a") == Ok([10 as char])
  {
    var s := "%+a";
    ParsePairSpec('+', 'a');
    assert HexValue('a') == 10;
    assert s[0] == '%' && s[1] == '+' && s[2] == 'a' && |s| == 3;
    assert ParsePair(s[1], s[2]) == Ok(10);
    assert s[3..] == [];
    assert Decode(s) == Prepend([10 as char], Decode(s[3..]));
    assert Decode([]) == Ok([]);
    assert [10 as char] + [] == [10 as char];
  }

  // custom_strings::deserialize_url: trimmed and lower-cased, decoded, validated.

  lemma UrlLower0() ensures Lower("http") == "http" {
    LowerIdentity("http");
  }

  lemma UrlLower1() ensures Lower("s://") == "s://" {
    LowerIdentity("s://");
  }

  lemma UrlLower2() ensures Lower("some") == "some" {
    LowerIdentity("some");
  }

  lemma UrlLower3() ensures Lower("thin") == "thin" {
    LowerIdentity("thin");
  }

  lemma UrlLower4() ensures Lower("g.de") == "g.de" {
    LowerIdentity("g.de");
  }

  lemma UrlLower5() ensures Lower("%2F") == "%2f" {
    assert forall i :: 0 <= i < 3 ==> LowerChar("%2F"[i]) == "%2f"[i];
  }

  lemma UrlLowerJoin()
    ensures "http" + "s://" + "some" + "thin" + "g.de" + "%2F" == "https://something.de%2F"
    ensures "http" + "s://" + "some" + "thin" + "g.de" + "%2f" == "https://something.de%2f"
  {
  }

  lemma UrlLower()
    ensures Lower("https://something.de%2F") == "https://something.de%2f"
  {
    UrlLower0();
    UrlLower1();
    UrlLower2();
    UrlLower3();
    UrlLower4();
    UrlLower5();
    UrlLowerJoin();
    LowerAppend("http", "s://");
    LowerAppend("http" + "s://", "some");
    LowerAppend("http" + "s://" + "some", "thin");
    LowerAppend("http" + "s://" + "some" + "thin", "g.de");
    LowerAppend("http" + "s://" + "some" + "thin" + "g.de", "%2F");
  }
  lemma UrlPlainJoin()
    ensures ("http" + "s://") + ("some" + "thin" + "g.de") == "https://something.de"
  {
  }

  lemma UrlPlainHead()
    ensures Decode("http" + "s://") == Ok("http" + "s://")
  {
    DecodeNoEscape("http");
    DecodeNoEscape("s://");
    DecodeAppend("http", "s://");
  }

  lemma UrlPlainTail()
    ensures Decode("some" + "thin" + "g.de") == Ok("some" + "thin" + "g.de")
  {
    DecodeNoEscape("some");
    DecodeNoEscape("thin");
    DecodeNoEscape("g.de");
    DecodeAppend("some", "thin");
    DecodeAppend("some" + "thin", "g.de");
  }

  lemma UrlPlain()
    ensures Decode("https://something.de") == Ok("https://something.de")
  {
    UrlPlainHead();
    UrlPlainTail();
    DecodeAppend("http" + "s://", "some" + "thin" + "g.de");
    UrlPlainJoin();
  }

  lemma UrlNormal()
    ensures CustomStrings.Normalize("https://something.de%2F") == "https://something.de%2f"
  {
    TrimIdentity("https://something.de%2F");
    UrlLower();
  }

  lemma UrlEscapeJoin()
    ensures "https://something.de" + ['%', '2', 'f'] + [] == "https://something.de%2f"
    ensures "https://something.de" + [47 as char] + [] == "https://something.de/"
  {
  }

  lemma UrlDecoded()
    ensures Decode("https://something.de%2f") == Ok("https://something.de/")
  {
    var p := "https://something.de";
    UrlPlain();
    DecodeEscape(p, '2', 'f', []);
    assert HexValue('2') == 2 && HexValue('f') == 15;
    UrlEscapeJoin();
  }

  /** An upper-case escape decodes like a lower-case one, since the string is lower-cased first. */
  lemma UrlExample(validUrl: seq<char> -> bool)
    requires validUrl("https://something.de/")
    ensures CustomStrings.Url(Str("https://something.de%2F"), validUrl) == Ok("https://something.de/")
  {
    UrlNormal();
    UrlDecoded();
  }

  lemma EscapeANormal()
    ensures CustomStrings.Normalize("%41") == "%41"
  {
    TrimIdentity("%41");
    LowerIdentity("%41");
  }

  lemma EscapeADecoded()
    ensures Decode("%41") == Ok("A")
  {
    DecodeEscape([], '4', '1', []);
    assert HexValue('4') == 4 && HexValue('1') == 1;
    assert [] + ['%', '4', '1'] + [] == "%41";
    assert [] + [65 as char] + [] == "A";
  }

  /** Lower-casing comes before decoding: an escape may produce an upper-case letter. */
  lemma UrlEscapeNotLowered(validUrl: seq<char> -> bool)
    requires validUrl("A")
    ensures CustomStrings.Url(Str("%41"), validUrl) == Ok("A")
  {
    EscapeANormal();
    EscapeADecoded();
  }

  lemma NonAsciiLower()
    ensures Lower("\U{FC}%2F") == "\U{FC}%2f"
  {
    assert forall i :: 0 <= i < 4 ==> LowerChar("\U{FC}%2F"[i]) == "\U{FC}%2f"[i];
  }

  lemma NonAsciiNormal()
    ensures CustomStrings.Normalize("\U{FC}%2F") == "\U{FC}%2f"
  {
    TrimIdentity("\U{FC}%2F");
    NonAsciiLower();
  }

  lemma NonAsciiDecoded()
    ensures Decode("\U{FC}%2f") == Ok("\U{FC}/")
  {
    var p := "\U{FC}";
    DecodeNoEscape(p);
    DecodeEscape(p, '2', 'f', []);
    assert HexValue('2') == 2 && HexValue('f') == 15;
    assert p + ['%', '2', 'f'] + [] == "\U{FC}%2f";
    assert p + [47 as char] + [] == "\U{FC}/";
  }

  /** A character outside ASCII passes through both lower-casing and decoding. */
  lemma UrlNonAscii(validUrl: seq<char> -> bool)
    requires validUrl("\U{FC}/")
    ensures CustomStrings.Url(Str("\U{FC}%2F"), validUrl) == Ok("\U{FC}/")
  {
    NonAsciiNormal();
    NonAsciiDecoded();
  }

  lemma InvalidByteLower()
    ensures Lower("%2G") == "%2g"
  {
    assert LowerChar('%') == '%' && LowerChar('2') == '2' && LowerChar('G') == 'g';
  }

  lemma InvalidByteNormal()
    ensures CustomStrings.Normalize("%2G") == "%2g"
  {
    TrimIdentity("%2G");
    InvalidByteLower();
  }

  lemma InvalidByteDecoded()
    ensures Decode("%2g") == Err(ParseInt(InvalidDigit))
  {
    DecodeInvalidPair([], '2', 'g', []);
    assert [] + ['%', '2', 'g'] + [] == "%2g";
  }

  /** A pair that is not a byte fails the call whatever the URL validator says. */
  lemma UrlInvalidByte(validUrl: seq<char> -> bool)
    ensures CustomStrings.Url(Str("%2G"), validUrl) == Err(ParseInt(InvalidDigit))
  {
    InvalidByteNormal();
    InvalidByteDecoded();
  }

  lemma HalfByteNormal()
    ensures CustomStrings.Normalize("%2") == "%2"
  {
    TrimIdentity("%2");
    LowerIdentity("%2");
  }

  lemma HalfByteDecoded()
    ensures Decode("%2") == Err(IndexError)
  {
    DecodeTruncated([], "2");
    assert [] + ['%'] + "2" == "%2";
  }

  /** Half an escape at the end fails the call whatever the URL validator says. */
  lemma UrlHalfByte(validUrl: seq<char> -> bool)
    ensures CustomStrings.Url(Str("%2"), validUrl) == Err(IndexError)
  {
    HalfByteNormal();
    HalfByteDecoded();
  }

  // The conversion adapters on the test records.

  /** `{"bar": true, "baz": 127, "bat": "-4"}` and `{"bar": false, "baz": 0, "bat": "12"}`. */
  lemma FooExamples()
    ensures Convert.DeserializeFrom(Bool(true), ReadBool, Convert.U8FromBool) == Ok(1)
    ensures Convert.DeserializeTryFrom(Int(127), ReadI8, Convert.U8TryFromI8) == Ok(127)
    ensures Convert.DeserializeFromStr(Str("-4"), Convert.ParseI32) == Ok(-4)
    ensures Convert.DeserializeFrom(Bool(false), ReadBool, Convert.U8FromBool) == Ok(0)
    ensures Convert.DeserializeTryFrom(Int(0), ReadI8, Convert.U8TryFromI8) == Ok(0)
    ensures Convert.DeserializeFromStr(Str("12"), Convert.ParseI32) == Ok(12)
  {
    Convert.BoolToU8(Bool(true));
    Convert.BoolToU8(Bool(false));
    Convert.I8ToU8(127);
    Convert.I8ToU8(0);
    Convert.I32FromStr();
  }

  /** The failing records: `"bar": "true"`, `"baz": 128` and `"bat": -4`. */
  lemma FooFailures()
    ensures Convert.DeserializeFrom(Str("true"), ReadBool, Convert.U8FromBool) == Err(InvalidType)
    ensures Convert.DeserializeTryFrom(Int(128), ReadI8, Convert.U8TryFromI8) == Err(InvalidValue)
    ensures Convert.DeserializeFromStr(Int(-4), Convert.ParseI32) == Err(InvalidType)
  {
    Convert.BoolToU8(Str("true"));
    Convert.I8ToU8(128);
    Convert.I32FromStr();
  }

  /**
   * `{"bar": true, "baz": 127, "bat": "-4"}`, `{"bar": false, "baz": null, "bat": "12"}`
   * and the all-null record, read by the option adapters.
   */
  lemma FooOptionExamples()
    ensures Convert.DeserializeFromOption(Bool(true), ReadBool, Convert.U8FromBool) == Ok(Some(1))
    ensures Convert.DeserializeTryFromOption(Int(127), ReadI8, Convert.U8TryFromI8) == Ok(Some(127))
    ensures Convert.DeserializeFromStrOption(Str("-4"), Convert.ParseI32) == Ok(Some(-4))
    ensures Convert.DeserializeFromOption(Bool(false), ReadBool, Convert.U8FromBool) == Ok(Some(0))
    ensures Convert.DeserializeTryFromOption(Null, ReadI8, Convert.U8TryFromI8) == Ok(None)
    ensures Convert.DeserializeFromStrOption(Str("12"), Convert.ParseI32) == Ok(Some(12))
    ensures Convert.DeserializeFromOption(Null, ReadBool, Convert.U8FromBool) == Ok(None)
    ensures Convert.DeserializeFromStrOption(Null, Convert.ParseI32) == Ok(None)
  {
    FooExamples();
  }
}
