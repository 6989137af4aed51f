/** Concrete tables and strings whose results under the cleaning steps are
    proved: a mode imputation, the "unknown" token winning the mode and
    surviving imputation, phone regrouping, and the row filters. */
module Scenarios {
  import opened Wrappers
  import opened Seqs
  import opened Frame
  import opened Modes
  import opened Text
  import opened Cleaning

  /** A row with both names and the given age, amount and phone. */
  function Row(age: Cell, amount: Cell, phone: Cell): Record {
    Record(Str("Ann"), Str("Lee"), age, Null, phone, Null, amount, Num(10), Null, Null, Null, Null)
  }

  /** The count of a value at the front of a sequence is one more than in
      the rest. */
  lemma CountTail(x: Cell, s: seq<Cell>)
    ensures Count([x] + s, x) == Count(s, x) + 1
    ensures forall y :: y != x ==> Count([x] + s, y) == Count(s, y)
  {
    assert ([x] + s)[1..] == s;
  }

  /** How often each value occurs in the age column "unknown", 30, 30, 45. */
  lemma ThirtyCounts(col: seq<Cell>)
    requires col == [UnknownToken, Num(30), Num(30), Num(45)]
    ensures Count(col, UnknownToken) == 1 && Count(col, Num(30)) == 2 && Count(col, Num(45)) == 1
  {
    assert col == [UnknownToken] + ([Num(30)] + ([Num(30)] + [Num(45)]));
    CountTail(Num(45), []);
    CountTail(Num(30), [Num(45)]);
    CountTail(Num(30), [Num(30)] + [Num(45)]);
    CountTail(UnknownToken, [Num(30)] + ([Num(30)] + [Num(45)]));
  }

  /** In the age column "unknown", 30, 30, 45 only 30 is most frequent. */
  lemma ThirtyIsTheMode(col: seq<Cell>, m: Cell)
    requires col == [UnknownToken, Num(30), Num(30), Num(45)]
    requires IsModeOf(col, m)
    ensures m == Num(30)
  {
    ThirtyCounts(col);
    assert Count(col, col[1]) <= Count(col, m);
  }

  /** Ages "unknown", 30, 30, 45: whatever pandas does with ties, the mode is
      30, and the "unknown" row is imputed to 30. */
  lemma UnknownAgeTakesMode(pick: ModePicker)
    requires IsModePicker(pick)
    ensures var t := [Row(UnknownToken, Num(1), Null), Row(Num(30), Num(1), Null),
                      Row(Num(30), Num(1), Null), Row(Num(45), Num(1), Null)];
            && ModeOf(t, Age, pick) == Ok(Num(30))
            && ImputeUnknown(t, Age, Num(30))[0].age == Num(30)
  {
    var t := [Row(UnknownToken, Num(1), Null), Row(Num(30), Num(1), Null),
              Row(Num(30), Num(1), Null), Row(Num(45), Num(1), Null)];
    var col := ColumnOf(t, Age);
    assert col == [UnknownToken, Num(30), Num(30), Num(45)];
    assert col[1] != Null;
    ThirtyIsTheMode(col, pick(col).value);
  }

  /** How often each value occurs in the age column "unknown", "unknown", 30. */
  lemma TokenCounts(col: seq<Cell>)
    requires col == [UnknownToken, UnknownToken, Num(30)]
    ensures Count(col, UnknownToken) == 2 && Count(col, Num(30)) == 1
  {
    assert col == [UnknownToken] + ([UnknownToken] + [Num(30)]);
    CountTail(Num(30), []);
    CountTail(UnknownToken, [Num(30)]);
    CountTail(UnknownToken, [UnknownToken] + [Num(30)]);
  }

  /** In the age column "unknown", "unknown", 30 only the token is most
      frequent. */
  lemma TokenIsTheMode(col: seq<Cell>, m: Cell)
    requires col == [UnknownToken, UnknownToken, Num(30)]
    requires IsModeOf(col, m)
    ensures m == UnknownToken
  {
    TokenCounts(col);
    assert Count(col, col[0]) <= Count(col, m);
  }

  /** Ages "unknown", "unknown", 30: the token is the only most frequent
      value, so line 16 writes it back and the age column keeps no number. */
  lemma UnknownCanWinTheMode(pick: ModePicker)
    requires IsModePicker(pick)
    ensures var t := [Row(UnknownToken, Num(1), Null), Row(UnknownToken, Num(1), Null),
                      Row(Num(30), Num(1), Null)];
            && ModeOf(t, Age, pick) == Ok(UnknownToken)
            && ImputeUnknown(t, Age, UnknownToken)[0].age == UnknownToken
  {
    var t := [Row(UnknownToken, Num(1), Null), Row(UnknownToken, Num(1), Null),
              Row(Num(30), Num(1), Null)];
    var col := ColumnOf(t, Age);
    assert col == [UnknownToken, UnknownToken, Num(30)];
    assert col[0] != Null;
    TokenIsTheMode(col, pick(col).value);
  }

  /** Digits before a non-digit pass through; the non-digit is dropped. */
  lemma DigitsSkip(a: string, c: char, b: string)
    requires AllDigits(a) && !IsDigit(c)
    ensures Digits(a + [c] + b) == a + Digits(b)
  {
    DigitsAppend(a + [c], b);
    DigitsAppend(a, [c]);
    NonDigitStrips(c);
  }

  lemma DigitRuns()
    ensures AllDigits("555") && AllDigits("123") && AllDigits("4567")
  {
  }

  /** The dotted phone, cut at its non-digits. */
  lemma DottedPieces()
    ensures "4567x" == "4567" + ['x'] + ""
    ensures "123.4567x" == "123" + ['.'] + "4567x"
    ensures "555.123.4567x" == "555" + ['.'] + "123.4567x"
    ensures "555" + ("123" + "4567") == "5551234567"
  {
  }

  lemma DigitsOfTail()
    ensures Digits("4567x") == "4567"
  {
    DigitRuns();
    DottedPieces();
    DigitsSkip("4567", 'x', "");
  }

  lemma DigitsOfMiddle()
    ensures Digits("123.4567x") == "123" + "4567"
  {
    DigitRuns();
    DottedPieces();
    DigitsOfTail();
    DigitsSkip("123", '.', "4567x");
  }

  lemma DottedDigits()
    ensures Digits("555.123.4567x") == "5551234567"
  {
    DigitRuns();
    DottedPieces();
    DigitsOfMiddle();
    DigitsSkip("555", '.', "123.4567x");
  }

  lemma TenDigitsRegrouped()
    ensures FormatPhone("5551234567") == "555-123-4567"
  {
    var d := "5551234567";
    assert Slice(d, 0, 3) == "555" && Slice(d, 3, 6) == "123" && Slice(d, 6, |d|) == "4567";
  }

  /** A phone written with dots and a trailing letter is regrouped from its
      ten digits. */
  lemma DottedPhone()
    ensures NormalizePhone("555.123.4567x") == "555-123-4567"
  {
    DottedDigits();
    TenDigitsRegrouped();
  }

  /** The placeholder phone of line 18 is already in normal form. */
  lemma PlaceholderPhoneStays()
    ensures NormalizePhone("000-000-0000") == "000-000-0000"
  {
    assert PhoneShape("000-000-0000");
    NormalizePhoneFixpoints("000-000-0000");
  }

  /** A row without a holder name is gone after line 15, whatever else it
      holds. */
  lemma NamelessRowDropped(t: Table, r: Record)
    requires r.policyHolderName == Null
    ensures r !in DropIncomplete(t)
  {
  }

  /** A row with age -5 passes the fills but not validation. */
  lemma NegativeAgeDropped()
    ensures var t := [Row(Num(-5), Num(100), Str("5551234567")), Row(Num(40), Num(200), Str("5559876543"))];
            && DropInvalid(t) == Ok([t[1]])
  {
    var t := [Row(Num(-5), Num(100), Str("5551234567")), Row(Num(40), Num(200), Str("5559876543"))];
    assert t[1..] == [t[1]] && [t[1]][1..] == [];
    assert Filter(t, AgeValid) == [t[1]];
    assert Filter([t[1]], AmountValid) == [t[1]];
  }

  /** Two identical rows leave one. */
  lemma TwinRowsMerge(r: Record)
    ensures Dedup([r, r]) == [r]
  {
    DedupLast([r, r]);
    DedupLast([r]);
    assert [r, r][..1] == [r];
    assert [r][..0] == [];
  }
}
