/** The record-cleaning transform of the script, one function per step, in
    the script's order: drop rows without identity, fill placeholders,
    impute numeric columns with their mode, coerce types, normalise phone
    and email, drop duplicates, drop negative ages and amounts. */
module Cleaning {
  import opened Wrappers
  import opened Seqs
  import opened Frame
  import opened Modes
  import opened Text

  /** Why the script stops with a pandas exception instead of writing output. */
  datatype Failure =
    /** `col.mode()[0]` on a column without values: the mode is an empty
        Series, so label 0 is missing (KeyError). */
    | NoMode(column: Column)
    /** The phone regrouping lambda is handed something that is not a
        string (TypeError), or the `.str` accessor refuses the email column
        (AttributeError). */
    | NotText(column: Column)
    /** `col < 0` meets a string or a date (TypeError). */
    | NotComparable(column: Column)

  /** `pd.to_numeric(errors='coerce')` on one string; None where it would
      give NaN. Amounts are read as whole numbers. */
  type NumberParser = string -> Option<int>

  /** `pd.to_datetime(errors='coerce')` on one string of one column. With no
      `format=` pandas infers the format from the column's own first string,
      so each date column has a parser of its own. */
  type DateParser = string -> Option<Date>

  /** `col.mode()[0]`, see `Modes.IsModePicker`. */
  type ModePicker = seq<Cell> -> Option<Cell>

  /** The token the numeric columns use for a missing value. */
  const UnknownToken: Cell := Str("unknown")

  const EmailPlaceholder: Cell := Str("unknown@example.com")
  const PhonePlaceholder: Cell := Str("000-000-0000")
  const AddressPlaceholder: Cell := Str("Unknown Address")
  const StatusPlaceholder: Cell := Str("unknown")
  const BeneficiaryPlaceholder: Cell := Str("Unknown")

  // ---------------------------------------------------------------------
  // Line 15: drop rows missing identity

  predicate HasIdentity(r: Record) {
    r.policyHolderName != Null && r.lastName != Null
  }

  /** `df.dropna(subset=['policy_holder_name', 'last_name'])`. */
  function DropIncomplete(t: Table): (r: Table)
    ensures forall k :: 0 <= k < |r| ==> HasIdentity(r[k]) && r[k] in t
    ensures forall k :: 0 <= k < |t| && HasIdentity(t[k]) ==> t[k] in r
  {
    Filter(t, HasIdentity)
  }

  /** The rows kept are, in order, exactly the input rows with both names. */
  lemma DropIncompleteSelects(t: Table) returns (idx: seq<int>)
    ensures PicksFrom(DropIncomplete(t), t, idx)
    ensures forall i :: 0 <= i < |t| ==> (i in idx <==> HasIdentity(t[i]))
  {
    idx := FilterPicks(t, HasIdentity);
  }

  // ---------------------------------------------------------------------
  // Lines 17-19, 22-23: placeholder fills

  /** `fillna(v)` on one cell. */
  function FillCell(x: Cell, v: Cell): Cell {
    if x == Null then v else x
  }

  /** `df[c] = df[c].fillna(v)`. */
  function FillNa(t: Table, c: Column, v: Cell): (r: Table)
    ensures |r| == |t|
    ensures forall i :: 0 <= i < |t| ==> r[i] == t[i].Set(c, FillCell(t[i].Get(c), v))
    ensures forall i :: 0 <= i < |t| && t[i].Get(c) == Null ==> r[i].Get(c) == v
    ensures forall i :: 0 <= i < |t| && t[i].Get(c) != Null ==> r[i].Get(c) == t[i].Get(c)
  {
    MapColumn(t, c, x => FillCell(x, v))
  }

  /** A second fill with the same value changes nothing. */
  lemma FillNaIdempotent(t: Table, c: Column, v: Cell)
    ensures FillNa(FillNa(t, c, v), c, v) == FillNa(t, c, v)
  {
    var once := FillNa(t, c, v);
    var twice := FillNa(once, c, v);
    forall i | 0 <= i < |t|
      ensures twice[i] == once[i]
    {
      RecordsAgree(twice[i], once[i]);
    }
  }

  // ---------------------------------------------------------------------
  // Lines 16, 20-21: numeric imputation

  /** `replace('unknown', pd.NA).fillna(fill)` on one cell. */
  function ImputeCell(x: Cell, fill: Cell): Cell {
    if x == Null || x == UnknownToken then fill else x
  }

  /** `df[c] = df[c].replace('unknown', pd.NA).fillna(fill)`. */
  function ImputeUnknown(t: Table, c: Column, fill: Cell): (r: Table)
    ensures |r| == |t|
    ensures forall i :: 0 <= i < |t| ==> r[i] == t[i].Set(c, ImputeCell(t[i].Get(c), fill))
    ensures forall i :: 0 <= i < |t| && (t[i].Get(c) == Null || t[i].Get(c) == UnknownToken) ==> r[i].Get(c) == fill
    ensures forall i :: 0 <= i < |t| && t[i].Get(c) != Null && t[i].Get(c) != UnknownToken ==> r[i].Get(c) == t[i].Get(c)
  {
    MapColumn(t, c, x => ImputeCell(x, fill))
  }

  /** The fill value is taken from the column before the replacement, so it
      may be the token itself; either way it is still a most frequent value
      of the imputed column, which the refill at lines 26, 29, 30 reads. */
  lemma ImputedModeStaysMode(t: Table, c: Column, m: Cell)
    requires IsModeOf(ColumnOf(t, c), m)
    ensures IsModeOf(ColumnOf(ImputeUnknown(t, c, m), c), m)
  {
    ModeSurvivesImputation(ColumnOf(t, c), ColumnOf(ImputeUnknown(t, c, m), c), UnknownToken, m);
  }

  /** `df[c].mode()[0]`, failing like pandas on a column without values. */
  function ModeOf(t: Table, c: Column, pick: ModePicker): (r: Result<Cell, Failure>)
    requires IsModePicker(pick)
    ensures r.Ok? <==> HasValue(ColumnOf(t, c))
    ensures r.Ok? ==> IsModeOf(ColumnOf(t, c), r.value)
    ensures r.Err? ==> r.error == NoMode(c)
  {
    match pick(ColumnOf(t, c))
    case Some(m) => Ok(m)
    case None => Err(NoMode(c))
  }

  // ---------------------------------------------------------------------
  // Lines 26-30: type coercion

  /** A cell `pd.to_numeric` turns into a number. */
  predicate Parses(x: Cell, parse: NumberParser) {
    x.Num? || (x.Str? && parse(x.text).Some?)
  }

  /** `pd.to_numeric(errors='coerce')` on one cell: numbers stay, strings are
      parsed, everything else becomes NaN. */
  function Numeric(x: Cell, parse: NumberParser): Cell {
    match x
    case Num(_) => x
    case Str(s) => (match parse(s) case Some(n) => Num(n) case None => Null)
    case _ => Null
  }

  /** `pd.to_numeric(errors='coerce')` then `fillna(fill)` on one cell. */
  function CoerceCell(x: Cell, parse: NumberParser, fill: Cell): Cell {
    var y := Numeric(x, parse);
    if y == Null then fill else y
  }

  /** `df[c] = pd.to_numeric(df[c], errors='coerce').fillna(fill)`. */
  function ToNumeric(t: Table, c: Column, parse: NumberParser, fill: Cell): (r: Table)
    ensures |r| == |t|
    ensures forall i :: 0 <= i < |t| && t[i].Get(c).Num? ==> r[i].Get(c) == t[i].Get(c)
    ensures forall i :: 0 <= i < |t| && t[i].Get(c).Str? && parse(t[i].Get(c).text).Some? ==>
              r[i].Get(c) == Num(parse(t[i].Get(c).text).value)
    ensures forall i :: 0 <= i < |t| && !Parses(t[i].Get(c), parse) ==> r[i].Get(c) == fill
    ensures forall i :: 0 <= i < |t| ==> r[i] == t[i].Set(c, CoerceCell(t[i].Get(c), parse, fill))
  {
    MapColumn(t, c, x => CoerceCell(x, parse, fill))
  }

  /** With a numeric fill value the column ends up all numbers, and coercing
      it again changes nothing. */
  lemma ToNumericSettles(t: Table, c: Column, parse: NumberParser, fill: Cell)
    requires fill.Num?
    ensures forall i :: 0 <= i < |t| ==> ToNumeric(t, c, parse, fill)[i].Get(c).Num?
    ensures ToNumeric(ToNumeric(t, c, parse, fill), c, parse, fill) == ToNumeric(t, c, parse, fill)
  {
    var once := ToNumeric(t, c, parse, fill);
    var twice := ToNumeric(once, c, parse, fill);
    forall i | 0 <= i < |t|
      ensures twice[i] == once[i]
    {
      RecordsAgree(twice[i], once[i]);
    }
  }

  predicate IsDate(x: Cell) {
    x.Null? || x.When?
  }

  /** `pd.to_datetime(errors='coerce')` on one cell of a text column. */
  function DateCell(x: Cell, parseDate: DateParser): Cell {
    match x
    case Str(s) => (match parseDate(s) case Some(d) => When(d) case None => Null)
    case When(_) => x
    case _ => Null
  }

  /** `df[c] = pd.to_datetime(df[c], errors='coerce')`. */
  function ToDatetime(t: Table, c: Column, parseDate: DateParser): (r: Table)
    ensures |r| == |t|
    ensures forall i :: 0 <= i < |t| ==> IsDate(r[i].Get(c))
    ensures forall i :: 0 <= i < |t| && t[i].Get(c).When? ==> r[i].Get(c) == t[i].Get(c)
    ensures forall i :: 0 <= i < |t| && t[i].Get(c).Str? && parseDate(t[i].Get(c).text).Some? ==>
              r[i].Get(c) == When(parseDate(t[i].Get(c).text).value)
    ensures forall i :: 0 <= i < |t| && t[i].Get(c).Str? && parseDate(t[i].Get(c).text).None? ==>
              r[i].Get(c) == Null
    ensures forall i :: 0 <= i < |t| ==> r[i] == t[i].Set(c, DateCell(t[i].Get(c), parseDate))
  {
    MapColumn(t, c, x => DateCell(x, parseDate))
  }

  /** A column already holding dates and nulls is left as it is. */
  lemma ToDatetimeIdempotent(t: Table, c: Column, parseDate: DateParser)
    ensures ToDatetime(ToDatetime(t, c, parseDate), c, parseDate) == ToDatetime(t, c, parseDate)
  {
    var once := ToDatetime(t, c, parseDate);
    var twice := ToDatetime(once, c, parseDate);
    forall i | 0 <= i < |t|
      ensures twice[i] == once[i]
    {
      RecordsAgree(twice[i], once[i]);
    }
  }

  // ---------------------------------------------------------------------
  // Lines 33-35: format normalisation

  function DigitsCell(x: Cell): Cell {
    if x.Str? then Str(Digits(x.text)) else Null
  }

  /** `df['phone'].str.replace(r'[^0-9]', '', regex=True)`; the `.str`
      accessor turns a non-string cell into NaN. */
  function StripNonDigits(t: Table): (r: Table)
    ensures |r| == |t|
    ensures forall i :: 0 <= i < |t| && t[i].phone.Str? ==> r[i].phone == Str(Digits(t[i].phone.text))
    ensures forall i :: 0 <= i < |t| && !t[i].phone.Str? ==> r[i].phone == Null
    ensures forall i :: 0 <= i < |t| ==> r[i] == t[i].(phone := r[i].phone)
  {
    MapColumn(t, Phone, DigitsCell)
  }

  function RegroupCell(x: Cell): Cell {
    if x.Str? then Str(FormatPhone(x.text)) else x
  }

  /** `df['phone'].apply(lambda x: f'{x[:3]}-{x[3:6]}-{x[6:]}')`: slicing a
      NaN raises, so every cell must be a string. */
  function RegroupPhones(t: Table): (r: Result<Table, Failure>)
    ensures r.Ok? <==> forall i :: 0 <= i < |t| ==> t[i].phone.Str?
    ensures r.Err? ==> r.error == NotText(Phone)
    ensures r.Ok? ==> |r.value| == |t|
    ensures r.Ok? ==> forall i :: 0 <= i < |t| ==> r.value[i].phone == Str(FormatPhone(t[i].phone.text))
    ensures r.Ok? ==> forall i :: 0 <= i < |t| ==> r.value[i] == t[i].(phone := r.value[i].phone)
  {
    if forall i :: 0 <= i < |t| ==> t[i].phone.Str? then
      Ok(MapColumn(t, Phone, RegroupCell))
    else
      Err(NotText(Phone))
  }

  function LowerCell(x: Cell): Cell {
    if x.Str? then Str(Lower(x.text)) else Null
  }

  predicate HasNumber(col: seq<Cell>) {
    exists i :: 0 <= i < |col| && col[i].Num?
  }

  predicate HasDate(col: seq<Cell>) {
    exists i :: 0 <= i < |col| && col[i].When?
  }

  /** The `.str` accessor raises AttributeError unless pandas infers a
      string-like dtype for the column. It refuses a column without any
      string whose values are all numbers ("integer") or all dates
      ("datetime"); a column with a string, with no value at all ("empty"),
      or mixing numbers and dates ("mixed-integer") is accepted. */
  predicate StrAccessorRefuses(col: seq<Cell>) {
    && (forall i :: 0 <= i < |col| ==> !col[i].Str?)
    && HasNumber(col) != HasDate(col)
  }

  /** `df['email'].str.lower()`: lower-cases the text cells and turns every
      other cell into NaN, unless the accessor refuses the column. */
  function LowerEmails(t: Table): (r: Result<Table, Failure>)
    ensures r.Err? <==> StrAccessorRefuses(ColumnOf(t, Email))
    ensures r.Err? ==> r.error == NotText(Email)
    ensures r.Ok? ==> |r.value| == |t|
    ensures r.Ok? ==> forall i :: 0 <= i < |t| && t[i].email.Str? ==> r.value[i].email == Str(Lower(t[i].email.text))
    ensures r.Ok? ==> forall i :: 0 <= i < |t| && !t[i].email.Str? ==> r.value[i].email == Null
    ensures r.Ok? ==> forall i :: 0 <= i < |t| ==> r.value[i] == t[i].(email := r.value[i].email)
  {
    if StrAccessorRefuses(ColumnOf(t, Email)) then Err(NotText(Email))
    else Ok(MapColumn(t, Email, LowerCell))
  }

  /** A column holding a string is never refused: the accessor fails only
      where no email is text. */
  lemma TextEmailAccepted(t: Table, k: int)
    requires 0 <= k < |t| && t[k].email.Str?
    ensures LowerEmails(t).Ok?
  {
    assert ColumnOf(t, Email)[k].Str?;
  }

  /** A column of numbers only is refused, which is what line 35 meets when
      every email was read as a number and none was missing. */
  lemma NumberEmailsRefused(t: Table)
    requires |t| > 0
    requires forall i :: 0 <= i < |t| ==> t[i].email.Num?
    ensures LowerEmails(t) == Err(NotText(Email))
  {
    var col := ColumnOf(t, Email);
    assert col[0].Num?;
    assert !HasDate(col) by {
      forall i | 0 <= i < |col| ensures !col[i].When? { assert col[i] == t[i].email; }
    }
  }

  // ---------------------------------------------------------------------
  // Line 38: duplicate removal

  /** `drop_duplicates()` as pandas computes it: one pass remembering the
      rows already seen; the result is the first occurrence of each row. */
  method DropDuplicates(t: Table) returns (r: Table)
    ensures r == Dedup(t)
  {
    var seen: set<Record> := {};
    r := [];
    var i := 0;
    while i < |t|
      invariant 0 <= i <= |t|
      invariant r == Dedup(t[..i])
      invariant forall x :: x in seen <==> x in t[..i]
    {
      assert t[..i + 1][..i] == t[..i];
      if t[i] !in seen {
        r := r + [t[i]];
        seen := seen + {t[i]};
      }
      i := i + 1;
    }
    assert t[..i] == t;
  }

  // ---------------------------------------------------------------------
  // Lines 41-48: validation

  /** A cell that `col < 0` can compare: a number, or NaN (which compares
      false). A string or a date raises. */
  predicate Comparable(x: Cell) {
    x.Num? || x.Null?
  }

  /** `cell >= 0`, false for NaN. */
  predicate AtLeastZero(x: Cell) {
    x.Num? && x.number >= 0
  }

  predicate AgeValid(r: Record) {
    AtLeastZero(r.age)
  }

  predicate AmountValid(r: Record) {
    AtLeastZero(r.policyAmount)
  }

  predicate Valid(r: Record) {
    AgeValid(r) && AmountValid(r)
  }

  /** Lines 41-42 compare both columns of the whole table, then lines 47-48
      keep the rows with a non-negative age, then those with a non-negative
      amount. */
  function DropInvalid(t: Table): (r: Result<Table, Failure>)
    ensures r.Ok? <==> forall i :: 0 <= i < |t| ==> Comparable(t[i].age) && Comparable(t[i].policyAmount)
    ensures r.Err? && r.error == NotComparable(Age) <==> exists i :: 0 <= i < |t| && !Comparable(t[i].age)
    ensures r.Err? ==> r.error == NotComparable(Age) || r.error == NotComparable(PolicyAmount)
    ensures r.Ok? ==> forall k :: 0 <= k < |r.value| ==> AgeValid(r.value[k]) && AmountValid(r.value[k]) && r.value[k] in t
    ensures r.Ok? ==> forall k :: 0 <= k < |t| && AgeValid(t[k]) && AmountValid(t[k]) ==> t[k] in r.value
  {
    if exists i :: 0 <= i < |t| && !Comparable(t[i].age) then
      Err(NotComparable(Age))
    else if exists i :: 0 <= i < |t| && !Comparable(t[i].policyAmount) then
      Err(NotComparable(PolicyAmount))
    else
      FilterTwice(t, AgeValid, AmountValid, Valid);
      Ok(Filter(Filter(t, AgeValid), AmountValid))
  }

  /** When validation passes it keeps, in order, exactly the rows whose age
      and amount are both non-negative numbers. */
  lemma DropInvalidSelects(t: Table) returns (idx: seq<int>)
    requires DropInvalid(t).Ok?
    ensures PicksFrom(DropInvalid(t).value, t, idx)
    ensures forall i :: 0 <= i < |t| ==> (i in idx <==> AgeValid(t[i]) && AmountValid(t[i]))
  {
    FilterTwice(t, AgeValid, AmountValid, Valid);
    idx := FilterPicks(t, Valid);
  }

  /** A duplicate-free table stays duplicate-free through validation. */
  lemma DropInvalidKeepsDistinct(t: Table)
    requires Distinct(t)
    requires DropInvalid(t).Ok?
    ensures Distinct(DropInvalid(t).value)
  {
    var idx := DropInvalidSelects(t);
    PicksKeepDistinct(DropInvalid(t).value, t, idx);
  }

  // ---------------------------------------------------------------------
  // The script, stage by stage

  /** Every column lines 16-23 fill holds a value. */
  predicate FillsDone(r: Record) {
    && r.age != Null && r.email != Null && r.phone != Null && r.address != Null
    && r.policyAmount != Null && r.policyTerm != Null
    && r.policyStatus != Null && r.beneficiaryName != Null
  }

  /** Columns agree, cell by cell. */
  lemma ColumnKept(t: Table, r: Table, c: Column)
    requires |r| == |t|
    requires forall i :: 0 <= i < |t| ==> r[i].Get(c) == t[i].Get(c)
    ensures ColumnOf(r, c) == ColumnOf(t, c)
  {
  }

  /** Lines 17-19. */
  function FillContacts(t: Table): (r: Table)
    ensures |r| == |t|
    ensures forall k :: 0 <= k < |t| ==>
              r[k] == t[k].(email := FillCell(t[k].email, EmailPlaceholder),
                            phone := FillCell(t[k].phone, PhonePlaceholder),
                            address := FillCell(t[k].address, AddressPlaceholder))
  {
    var t1 := FillNa(t, Email, EmailPlaceholder);
    var t2 := FillNa(t1, Phone, PhonePlaceholder);
    FillNa(t2, Address, AddressPlaceholder)
  }

  /** Lines 22-23. */
  function FillLabels(t: Table): (r: Table)
    ensures |r| == |t|
    ensures forall k :: 0 <= k < |t| ==>
              r[k] == t[k].(policyStatus := FillCell(t[k].policyStatus, StatusPlaceholder),
                            beneficiaryName := FillCell(t[k].beneficiaryName, BeneficiaryPlaceholder))
  {
    FillNa(FillNa(t, PolicyStatus, StatusPlaceholder), BeneficiaryName, BeneficiaryPlaceholder)
  }

  /** Lines 16-23. Each mode is read from its column as it stands when its
      line runs. */
  function FillMissing(t: Table, pick: ModePicker): Result<Table, Failure>
    requires IsModePicker(pick)
  {
    var ageFill :- ModeOf(t, Age, pick);
    var t1 := FillContacts(ImputeUnknown(t, Age, ageFill));
    var amountFill :- ModeOf(t1, PolicyAmount, pick);
    var t2 := ImputeUnknown(t1, PolicyAmount, amountFill);
    var termFill :- ModeOf(t2, PolicyTerm, pick);
    Ok(FillLabels(ImputeUnknown(t2, PolicyTerm, termFill)))
  }

  /** Lines 16-19 leave the amount and term columns as they were. */
  lemma AgeAndContactsKeep(t: Table, ageFill: Cell)
    ensures ColumnOf(FillContacts(ImputeUnknown(t, Age, ageFill)), PolicyAmount) == ColumnOf(t, PolicyAmount)
    ensures ColumnOf(FillContacts(ImputeUnknown(t, Age, ageFill)), PolicyTerm) == ColumnOf(t, PolicyTerm)
  {
    var t0 := ImputeUnknown(t, Age, ageFill);
    var t1 := FillContacts(t0);
    forall k | 0 <= k < |t|
      ensures t1[k].policyAmount == t[k].policyAmount && t1[k].policyTerm == t[k].policyTerm
    {
      assert t0[k] == t[k].(age := ImputeCell(t[k].age, ageFill));
    }
    ColumnKept(t, t1, PolicyAmount);
    ColumnKept(t, t1, PolicyTerm);
  }

  /** Line 20 leaves the term column as it was. */
  lemma AmountKeepsTerm(t: Table, amountFill: Cell)
    ensures ColumnOf(ImputeUnknown(t, PolicyAmount, amountFill), PolicyTerm) == ColumnOf(t, PolicyTerm)
  {
    MapColumnKeepsOthers(t, PolicyAmount, x => ImputeCell(x, amountFill), PolicyTerm);
  }

  /** Lines 16-23 fail exactly when one of the three numeric columns has no
      value to take a mode of, the age column being read first. */
  lemma FillMissingFails(t: Table, pick: ModePicker)
    requires IsModePicker(pick)
    ensures FillMissing(t, pick).Ok? <==>
              HasValue(ColumnOf(t, Age)) && HasValue(ColumnOf(t, PolicyAmount)) && HasValue(ColumnOf(t, PolicyTerm))
    ensures FillMissing(t, pick).Err? ==> FillMissing(t, pick).error.NoMode?
    ensures FillMissing(t, pick).Err? ==>
              (FillMissing(t, pick).error == NoMode(Age) <==> !HasValue(ColumnOf(t, Age)))
  {
    if HasValue(ColumnOf(t, Age)) {
      var ageFill := ModeOf(t, Age, pick).value;
      AgeAndContactsKeep(t, ageFill);
      var t1 := FillContacts(ImputeUnknown(t, Age, ageFill));
      if HasValue(ColumnOf(t, PolicyAmount)) {
        var amountFill := ModeOf(t1, PolicyAmount, pick).value;
        AmountKeepsTerm(t1, amountFill);
      }
    }
  }

  /** Lines 16-23 with the three fill values given. */
  function FillWith(t: Table, ageFill: Cell, amountFill: Cell, termFill: Cell): Table {
    var t1 := FillContacts(ImputeUnknown(t, Age, ageFill));
    var t2 := ImputeUnknown(t1, PolicyAmount, amountFill);
    FillLabels(ImputeUnknown(t2, PolicyTerm, termFill))
  }

  /** One row through lines 16-23. */
  lemma FillRowChain(a: Record, b0: Record, b1: Record, b2: Record, b3: Record, b4: Record,
                     ageFill: Cell, amountFill: Cell, termFill: Cell)
    requires ageFill != Null && amountFill != Null && termFill != Null
    requires b0 == a.Set(Age, ImputeCell(a.Get(Age), ageFill))
    requires b1 == b0.(email := FillCell(b0.email, EmailPlaceholder), phone := FillCell(b0.phone, PhonePlaceholder),
                       address := FillCell(b0.address, AddressPlaceholder))
    requires b2 == b1.Set(PolicyAmount, ImputeCell(b1.Get(PolicyAmount), amountFill))
    requires b3 == b2.Set(PolicyTerm, ImputeCell(b2.Get(PolicyTerm), termFill))
    requires b4 == b3.(policyStatus := FillCell(b3.policyStatus, StatusPlaceholder),
                       beneficiaryName := FillCell(b3.beneficiaryName, BeneficiaryPlaceholder))
    ensures FillsDone(b4)
    ensures b4.policyHolderName == a.policyHolderName && b4.lastName == a.lastName
    ensures b4.dateOfBirth == a.dateOfBirth && b4.policyStartDate == a.policyStartDate
  {
  }

  lemma FillWithRows(t: Table, ageFill: Cell, amountFill: Cell, termFill: Cell)
    requires ageFill != Null && amountFill != Null && termFill != Null
    ensures |FillWith(t, ageFill, amountFill, termFill)| == |t|
    ensures forall k :: 0 <= k < |t| ==>
              var r := FillWith(t, ageFill, amountFill, termFill)[k];
              && FillsDone(r)
              && r.policyHolderName == t[k].policyHolderName && r.lastName == t[k].lastName
              && r.dateOfBirth == t[k].dateOfBirth && r.policyStartDate == t[k].policyStartDate
  {
    var t0 := ImputeUnknown(t, Age, ageFill);
    var t1 := FillContacts(t0);
    var t2 := ImputeUnknown(t1, PolicyAmount, amountFill);
    var t3 := ImputeUnknown(t2, PolicyTerm, termFill);
    var r := FillLabels(t3);
    forall k | 0 <= k < |t|
      ensures FillsDone(r[k])
      ensures r[k].policyHolderName == t[k].policyHolderName && r[k].lastName == t[k].lastName
      ensures r[k].dateOfBirth == t[k].dateOfBirth && r[k].policyStartDate == t[k].policyStartDate
    {
      FillRowChain(t[k], t0[k], t1[k], t2[k], t3[k], r[k], ageFill, amountFill, termFill);
    }
  }

  /** When lines 16-23 succeed, every column they touch is filled and the
      names and dates are left alone. */
  lemma FillMissingFills(t: Table, pick: ModePicker)
    requires IsModePicker(pick)
    requires FillMissing(t, pick).Ok?
    ensures |FillMissing(t, pick).value| == |t|
    ensures forall k :: 0 <= k < |t| ==>
              var r := FillMissing(t, pick).value[k];
              && FillsDone(r)
              && r.policyHolderName == t[k].policyHolderName && r.lastName == t[k].lastName
              && r.dateOfBirth == t[k].dateOfBirth && r.policyStartDate == t[k].policyStartDate
  {
    var ageFill := ModeOf(t, Age, pick).value;
    var t1 := FillContacts(ImputeUnknown(t, Age, ageFill));
    var amountFill := ModeOf(t1, PolicyAmount, pick).value;
    var t2 := ImputeUnknown(t1, PolicyAmount, amountFill);
    var termFill := ModeOf(t2, PolicyTerm, pick).value;
    assert FillMissing(t, pick) == Ok(FillWith(t, ageFill, amountFill, termFill));
    FillWithRows(t, ageFill, amountFill, termFill);
  }

  /** Lines 26-30. The refill values are the modes of the columns as lines
      16-21 left them. */
  function CorrectTypes(t: Table, parse: NumberParser, parseBirth: DateParser, parseStart: DateParser, pick: ModePicker): Result<Table, Failure>
    requires IsModePicker(pick)
  {
    var ageFill :- ModeOf(t, Age, pick);
    var t1 := ToNumeric(t, Age, parse, ageFill);
    var t2 := ToDatetime(ToDatetime(t1, DateOfBirth, parseBirth), PolicyStartDate, parseStart);
    var amountFill :- ModeOf(t2, PolicyAmount, pick);
    var t3 := ToNumeric(t2, PolicyAmount, parse, amountFill);
    var termFill :- ModeOf(t3, PolicyTerm, pick);
    Ok(ToNumeric(t3, PolicyTerm, parse, termFill))
  }

  /** Lines 26-30 with the three refill values given. */
  function CoerceWith(t: Table, parse: NumberParser, parseBirth: DateParser, parseStart: DateParser,
                      ageFill: Cell, amountFill: Cell, termFill: Cell): Table
  {
    var t1 := ToNumeric(t, Age, parse, ageFill);
    var t2 := ToDatetime(ToDatetime(t1, DateOfBirth, parseBirth), PolicyStartDate, parseStart);
    var t3 := ToNumeric(t2, PolicyAmount, parse, amountFill);
    ToNumeric(t3, PolicyTerm, parse, termFill)
  }

  /** One row through lines 26-30. */
  lemma CoerceRowChain(a: Record, b1: Record, b2: Record, b3: Record, b4: Record, b5: Record,
                       parse: NumberParser, parseBirth: DateParser, parseStart: DateParser, ageFill: Cell, amountFill: Cell, termFill: Cell)
    requires ageFill != Null && amountFill != Null && termFill != Null
    requires b1 == a.Set(Age, CoerceCell(a.Get(Age), parse, ageFill))
    requires b2 == b1.Set(DateOfBirth, DateCell(b1.Get(DateOfBirth), parseBirth))
    requires b3 == b2.Set(PolicyStartDate, DateCell(b2.Get(PolicyStartDate), parseStart))
    requires b4 == b3.Set(PolicyAmount, CoerceCell(b3.Get(PolicyAmount), parse, amountFill))
    requires b5 == b4.Set(PolicyTerm, CoerceCell(b4.Get(PolicyTerm), parse, termFill))
    ensures b5.age != Null && b5.policyAmount != Null && b5.policyTerm != Null
    ensures IsDate(b5.dateOfBirth) && IsDate(b5.policyStartDate)
    ensures b5.policyHolderName == a.policyHolderName && b5.lastName == a.lastName
    ensures b5.email == a.email && b5.phone == a.phone && b5.address == a.address
    ensures b5.policyStatus == a.policyStatus && b5.beneficiaryName == a.beneficiaryName
  {
  }

  lemma CoerceWithRows(t: Table, parse: NumberParser, parseBirth: DateParser, parseStart: DateParser,
                       ageFill: Cell, amountFill: Cell, termFill: Cell)
    requires ageFill != Null && amountFill != Null && termFill != Null
    ensures |CoerceWith(t, parse, parseBirth, parseStart, ageFill, amountFill, termFill)| == |t|
    ensures forall k :: 0 <= k < |t| ==>
              var r := CoerceWith(t, parse, parseBirth, parseStart, ageFill, amountFill, termFill)[k];
              && r.age != Null && r.policyAmount != Null && r.policyTerm != Null
              && IsDate(r.dateOfBirth) && IsDate(r.policyStartDate)
              && r.policyHolderName == t[k].policyHolderName && r.lastName == t[k].lastName
              && r.email == t[k].email && r.phone == t[k].phone && r.address == t[k].address
              && r.policyStatus == t[k].policyStatus && r.beneficiaryName == t[k].beneficiaryName
  {
    var t1 := ToNumeric(t, Age, parse, ageFill);
    var t2a := ToDatetime(t1, DateOfBirth, parseBirth);
    var t2 := ToDatetime(t2a, PolicyStartDate, parseStart);
    var t3 := ToNumeric(t2, PolicyAmount, parse, amountFill);
    var r := ToNumeric(t3, PolicyTerm, parse, termFill);
    forall k | 0 <= k < |t|
      ensures r[k].age != Null && r[k].policyAmount != Null && r[k].policyTerm != Null
      ensures IsDate(r[k].dateOfBirth) && IsDate(r[k].policyStartDate)
      ensures r[k].policyHolderName == t[k].policyHolderName && r[k].lastName == t[k].lastName
      ensures r[k].email == t[k].email && r[k].phone == t[k].phone && r[k].address == t[k].address
      ensures r[k].policyStatus == t[k].policyStatus && r[k].beneficiaryName == t[k].beneficiaryName
    {
      CoerceRowChain(t[k], t1[k], t2a[k], t2[k], t3[k], r[k], parse, parseBirth, parseStart, ageFill, amountFill, termFill);
    }
  }

  /** Lines 26-28 leave the amount and term columns as they were. */
  lemma AgeAndDatesKeep(t: Table, parse: NumberParser, parseBirth: DateParser, parseStart: DateParser, ageFill: Cell)
    ensures var t2 := ToDatetime(ToDatetime(ToNumeric(t, Age, parse, ageFill), DateOfBirth, parseBirth), PolicyStartDate, parseStart);
            && ColumnOf(t2, PolicyAmount) == ColumnOf(t, PolicyAmount)
            && ColumnOf(t2, PolicyTerm) == ColumnOf(t, PolicyTerm)
  {
    var t1 := ToNumeric(t, Age, parse, ageFill);
    var t2a := ToDatetime(t1, DateOfBirth, parseBirth);
    MapColumnKeepsOthers(t, Age, x => CoerceCell(x, parse, ageFill), PolicyAmount);
    MapColumnKeepsOthers(t1, DateOfBirth, x => DateCell(x, parseBirth), PolicyAmount);
    MapColumnKeepsOthers(t2a, PolicyStartDate, x => DateCell(x, parseStart), PolicyAmount);
    MapColumnKeepsOthers(t, Age, x => CoerceCell(x, parse, ageFill), PolicyTerm);
    MapColumnKeepsOthers(t1, DateOfBirth, x => DateCell(x, parseBirth), PolicyTerm);
    MapColumnKeepsOthers(t2a, PolicyStartDate, x => DateCell(x, parseStart), PolicyTerm);
  }

  /** Line 29 leaves the term column as it was. */
  lemma AmountCoercionKeepsTerm(t: Table, parse: NumberParser, amountFill: Cell)
    ensures ColumnOf(ToNumeric(t, PolicyAmount, parse, amountFill), PolicyTerm) == ColumnOf(t, PolicyTerm)
  {
    MapColumnKeepsOthers(t, PolicyAmount, x => CoerceCell(x, parse, amountFill), PolicyTerm);
  }

  /** A non-empty column without nulls has a mode, which is not null. */
  lemma FilledHasMode(t: Table, c: Column, pick: ModePicker) returns (m: Cell)
    requires IsModePicker(pick)
    requires |t| > 0
    requires t[0].Get(c) != Null
    ensures m != Null && ModeOf(t, c, pick) == Ok(m)
  {
    assert ColumnOf(t, c)[0] != Null;
    m := ModeOf(t, c, pick).value;
  }

  /** The mode lookup reads only its own column. */
  lemma ModeOfColumn(t: Table, u: Table, c: Column, pick: ModePicker)
    requires IsModePicker(pick)
    requires ColumnOf(t, c) == ColumnOf(u, c)
    ensures ModeOf(t, c, pick) == ModeOf(u, c, pick)
  {
  }

  /** Lines 26-30 read the amount and term modes of columns that lines
      26-29 have not touched, so all three modes are those of the input. */
  lemma CorrectTypesUnfolds(t: Table, parse: NumberParser, parseBirth: DateParser, parseStart: DateParser, pick: ModePicker,
                            ageFill: Cell, amountFill: Cell, termFill: Cell)
    requires IsModePicker(pick)
    requires ModeOf(t, Age, pick) == Ok(ageFill)
    requires ModeOf(t, PolicyAmount, pick) == Ok(amountFill)
    requires ModeOf(t, PolicyTerm, pick) == Ok(termFill)
    ensures CorrectTypes(t, parse, parseBirth, parseStart, pick) == Ok(CoerceWith(t, parse, parseBirth, parseStart, ageFill, amountFill, termFill))
  {
    var t2 := ToDatetime(ToDatetime(ToNumeric(t, Age, parse, ageFill), DateOfBirth, parseBirth), PolicyStartDate, parseStart);
    AgeAndDatesKeep(t, parse, parseBirth, parseStart, ageFill);
    ModeOfColumn(t2, t, PolicyAmount, pick);
    var t3 := ToNumeric(t2, PolicyAmount, parse, amountFill);
    AmountCoercionKeepsTerm(t2, parse, amountFill);
    ModeOfColumn(t3, t, PolicyTerm, pick);
  }

  /** On a table whose numeric columns are filled, lines 26-30 find their
      three modes, none of them null. */
  lemma CorrectTypesFinds(t: Table, parse: NumberParser, parseBirth: DateParser, parseStart: DateParser, pick: ModePicker)
    returns (ageFill: Cell, amountFill: Cell, termFill: Cell)
    requires IsModePicker(pick)
    requires |t| > 0
    requires FillsDone(t[0])
    ensures ageFill != Null && amountFill != Null && termFill != Null
    ensures CorrectTypes(t, parse, parseBirth, parseStart, pick) == Ok(CoerceWith(t, parse, parseBirth, parseStart, ageFill, amountFill, termFill))
  {
    ageFill := FilledHasMode(t, Age, pick);
    amountFill := FilledHasMode(t, PolicyAmount, pick);
    termFill := FilledHasMode(t, PolicyTerm, pick);
    CorrectTypesUnfolds(t, parse, parseBirth, parseStart, pick, ageFill, amountFill, termFill);
  }

  /** On a non-empty table whose numeric columns are filled, lines 26-30
      always find their modes; they leave those columns filled, the date
      columns holding dates or nulls, and every other column alone. */
  lemma CorrectTypesSpec(t: Table, parse: NumberParser, parseBirth: DateParser, parseStart: DateParser, pick: ModePicker)
    requires IsModePicker(pick)
    requires |t| > 0
    requires forall k :: 0 <= k < |t| ==> FillsDone(t[k])
    ensures CorrectTypes(t, parse, parseBirth, parseStart, pick).Ok?
    ensures |CorrectTypes(t, parse, parseBirth, parseStart, pick).value| == |t|
    ensures forall k :: 0 <= k < |t| ==>
              var r := CorrectTypes(t, parse, parseBirth, parseStart, pick).value[k];
              && r.age != Null && r.policyAmount != Null && r.policyTerm != Null
              && IsDate(r.dateOfBirth) && IsDate(r.policyStartDate)
              && r.policyHolderName == t[k].policyHolderName && r.lastName == t[k].lastName
              && r.email == t[k].email && r.phone == t[k].phone && r.address == t[k].address
              && r.policyStatus == t[k].policyStatus && r.beneficiaryName == t[k].beneficiaryName
  {
    assert FillsDone(t[0]);
    var ageFill, amountFill, termFill := CorrectTypesFinds(t, parse, parseBirth, parseStart, pick);
    CoerceWithRows(t, parse, parseBirth, parseStart, ageFill, amountFill, termFill);
  }

  /** Lines 33-35. */
  function StandardizeFormats(t: Table): Result<Table, Failure> {
    var t1 := StripNonDigits(t);
    var t2 :- RegroupPhones(t1);
    LowerEmails(t2)
  }

  /** Lines 33-35 fail on a phone cell that is not text, and otherwise on an
      email column the `.str` accessor refuses; when they succeed each phone
      becomes its normalised form, each email its lower-case form, and
      nothing else changes. */
  lemma StandardizeFormatsSpec(t: Table)
    ensures StandardizeFormats(t).Ok? <==>
              (forall k :: 0 <= k < |t| ==> t[k].phone.Str?) && !StrAccessorRefuses(ColumnOf(t, Email))
    ensures StandardizeFormats(t).Err? ==>
              (StandardizeFormats(t).error == NotText(Phone) <==> exists k :: 0 <= k < |t| && !t[k].phone.Str?)
    ensures StandardizeFormats(t).Err? ==>
              StandardizeFormats(t).error == NotText(Phone) || StandardizeFormats(t).error == NotText(Email)
    ensures StandardizeFormats(t).Ok? ==>
              && |StandardizeFormats(t).value| == |t|
              && forall k :: 0 <= k < |t| ==>
                   StandardizeFormats(t).value[k]
                   == t[k].(phone := Str(NormalizePhone(t[k].phone.text)), email := LowerCell(t[k].email))
  {
    var t1 := StripNonDigits(t);
    assert (forall k :: 0 <= k < |t| ==> t[k].phone.Str?) <==> (forall k :: 0 <= k < |t1| ==> t1[k].phone.Str?);
    if RegroupPhones(t1).Ok? {
      var t2 := RegroupPhones(t1).value;
      assert ColumnOf(t2, Email) == ColumnOf(t, Email) by {
        forall k | 0 <= k < |t| ensures t2[k].email == t[k].email {
          assert t1[k].email == t[k].email;
        }
      }
      if LowerEmails(t2).Err? {
        return;
      }
      var r := LowerEmails(t2).value;
      assert StandardizeFormats(t) == Ok(r);
      forall k | 0 <= k < |t|
        ensures r[k] == t[k].(phone := Str(NormalizePhone(t[k].phone.text)), email := LowerCell(t[k].email))
      {
        assert t1[k] == t[k].(phone := Str(Digits(t[k].phone.text)));
        assert t2[k] == t1[k].(phone := Str(FormatPhone(t1[k].phone.text)));
      }
    }
  }

  /** What the script promises of every row it writes. */
  predicate Cleaned(r: Record) {
    && HasIdentity(r)
    && AtLeastZero(r.age)
    && AtLeastZero(r.policyAmount)
    && r.policyTerm != Null
    && r.phone.Str? && PhoneShape(r.phone.text)
    && (r.email.Null? || (r.email.Str? && NoUpper(r.email.text)))
    && r.address != Null && r.policyStatus != Null && r.beneficiaryName != Null
    && IsDate(r.dateOfBirth) && IsDate(r.policyStartDate)
  }

  /** A row as it reaches the duplicate removal: `Cleaned` but for the signs
      of age and amount. */
  predicate Standardized(r: Record) {
    && HasIdentity(r)
    && r.age != Null && r.policyAmount != Null && r.policyTerm != Null
    && r.phone.Str? && PhoneShape(r.phone.text)
    && (r.email.Null? || (r.email.Str? && NoUpper(r.email.text)))
    && r.address != Null && r.policyStatus != Null && r.beneficiaryName != Null
    && IsDate(r.dateOfBirth) && IsDate(r.policyStartDate)
  }

  /** Lines 26-38, once lines 15-23 have produced `t`. */
  function Reshape(t: Table, parse: NumberParser, parseBirth: DateParser, parseStart: DateParser, pick: ModePicker): Result<Table, Failure>
    requires IsModePicker(pick)
  {
    var t3 :- CorrectTypes(t, parse, parseBirth, parseStart, pick);
    var t4 :- StandardizeFormats(t3);
    Ok(Dedup(t4))
  }

  /** Lines 15-38: everything before validation. */
  function Prepare(raw: Table, parse: NumberParser, parseBirth: DateParser, parseStart: DateParser, pick: ModePicker): Result<Table, Failure>
    requires IsModePicker(pick)
  {
    var t2 :- FillMissing(DropIncomplete(raw), pick);
    Reshape(t2, parse, parseBirth, parseStart, pick)
  }

  /** The whole transform of lines 15-48 on the loaded table. */
  function Clean(raw: Table, parse: NumberParser, parseBirth: DateParser, parseStart: DateParser, pick: ModePicker): Result<Table, Failure>
    requires IsModePicker(pick)
  {
    var t :- Prepare(raw, parse, parseBirth, parseStart, pick);
    DropInvalid(t)
  }

  /** The row facts of lines 15-35, chained: a row that had its names, was
      filled, coerced and standardised is `Standardized`. */
  lemma StagesStandardize(t1: Table, t2: Table, t3: Table, t4: Table)
    requires forall k :: 0 <= k < |t1| ==> HasIdentity(t1[k])
    requires |t2| == |t1|
    requires forall k :: 0 <= k < |t1| ==>
               && FillsDone(t2[k])
               && t2[k].policyHolderName == t1[k].policyHolderName && t2[k].lastName == t1[k].lastName
    requires |t3| == |t2|
    requires forall k :: 0 <= k < |t2| ==>
               && t3[k].age != Null && t3[k].policyAmount != Null && t3[k].policyTerm != Null
               && IsDate(t3[k].dateOfBirth) && IsDate(t3[k].policyStartDate)
               && t3[k].policyHolderName == t2[k].policyHolderName && t3[k].lastName == t2[k].lastName
               && t3[k].email == t2[k].email && t3[k].phone == t2[k].phone && t3[k].address == t2[k].address
               && t3[k].policyStatus == t2[k].policyStatus && t3[k].beneficiaryName == t2[k].beneficiaryName
    requires |t4| == |t3|
    requires forall k :: 0 <= k < |t3| ==>
               t3[k].phone.Str? &&
               t4[k] == t3[k].(phone := Str(NormalizePhone(t3[k].phone.text)), email := LowerCell(t3[k].email))
    ensures forall k :: 0 <= k < |t4| ==> Standardized(t4[k])
  {
    forall k | 0 <= k < |t4|
      ensures Standardized(t4[k])
    {
      assert HasIdentity(t1[k]);
      assert FillsDone(t2[k]);
    }
  }

  /** Removing repeats keeps any property every row has. */
  lemma DedupKeepsStandardized(t: Table)
    requires forall k :: 0 <= k < |t| ==> Standardized(t[k])
    ensures forall k :: 0 <= k < |Dedup(t)| ==> Standardized(Dedup(t)[k])
  {
    var d := Dedup(t);
    forall k | 0 <= k < |d|
      ensures Standardized(d[k])
    {
      var j :| 0 <= j < |t| && t[j] == d[k];
    }
  }

  /** Every row reaching line 38 has its names, filled columns, normalised
      phone, lower-case email and parsed dates; the result has no repeated
      row. */
  lemma PrepareSpec(raw: Table, parse: NumberParser, parseBirth: DateParser, parseStart: DateParser, pick: ModePicker)
    requires IsModePicker(pick)
    requires Prepare(raw, parse, parseBirth, parseStart, pick).Ok?
    ensures Distinct(Prepare(raw, parse, parseBirth, parseStart, pick).value)
    ensures forall k :: 0 <= k < |Prepare(raw, parse, parseBirth, parseStart, pick).value| ==>
              Standardized(Prepare(raw, parse, parseBirth, parseStart, pick).value[k])
  {
    var t1 := DropIncomplete(raw);
    FillMissingFills(t1, pick);
    var t2 := FillMissing(t1, pick).value;
    if |t2| == 0 {
      FillMissingFails(t1, pick);
      assert false;
    }
    CorrectTypesSpec(t2, parse, parseBirth, parseStart, pick);
    var t3 := CorrectTypes(t2, parse, parseBirth, parseStart, pick).value;
    StandardizeFormatsSpec(t3);
    var t4 := StandardizeFormats(t3).value;
    assert Prepare(raw, parse, parseBirth, parseStart, pick) == Ok(Dedup(t4));
    StagesStandardize(t1, t2, t3, t4);
    DedupKeepsStandardized(t4);
  }

  /** Line 41-48 on rows as they reach it: the kept rows are `Cleaned` and
      stay free of repeats. */
  lemma DropInvalidCleans(t: Table)
    requires Distinct(t)
    requires forall k :: 0 <= k < |t| ==> Standardized(t[k])
    requires DropInvalid(t).Ok?
    ensures Distinct(DropInvalid(t).value)
    ensures forall k :: 0 <= k < |DropInvalid(t).value| ==> Cleaned(DropInvalid(t).value[k])
  {
    DropInvalidKeepsDistinct(t);
    var out := DropInvalid(t).value;
    forall k | 0 <= k < |out|
      ensures Cleaned(out[k])
    {
      var j :| 0 <= j < |t| && t[j] == out[k];
    }
  }

  /** What every written row satisfies: whenever the script completes, every
      row it writes has both names, a non-negative age and amount, a
      normalised phone, a lower-case email and filled placeholders, and no
      row is written twice. */
  lemma CleanGuarantees(raw: Table, parse: NumberParser, parseBirth: DateParser, parseStart: DateParser, pick: ModePicker)
    requires IsModePicker(pick)
    requires Clean(raw, parse, parseBirth, parseStart, pick).Ok?
    ensures Distinct(Clean(raw, parse, parseBirth, parseStart, pick).value)
    ensures forall k :: 0 <= k < |Clean(raw, parse, parseBirth, parseStart, pick).value| ==>
              Cleaned(Clean(raw, parse, parseBirth, parseStart, pick).value[k])
  {
    var t := Prepare(raw, parse, parseBirth, parseStart, pick).value;
    PrepareSpec(raw, parse, parseBirth, parseStart, pick);
    assert Clean(raw, parse, parseBirth, parseStart, pick) == DropInvalid(t);
    DropInvalidCleans(t);
  }

  /** Tables whose rows agree on phone and email have the same email column
      and the same phones. */
  lemma CoercionKeepsContacts(t: Table, c: Table)
    requires |c| == |t|
    requires forall k :: 0 <= k < |t| ==> c[k].email == t[k].email && c[k].phone == t[k].phone
    ensures ColumnOf(c, Email) == ColumnOf(t, Email)
    ensures (exists k :: 0 <= k < |c| && !c[k].phone.Str?) <==> (exists k :: 0 <= k < |t| && !t[k].phone.Str?)
  {
  }

  /** Lines 26-38 on a filled table never stop on a mode: they stop on a
      phone that is not text, or else on an email column the `.str`
      accessor refuses. */
  lemma ReshapeFails(t: Table, parse: NumberParser, parseBirth: DateParser, parseStart: DateParser, pick: ModePicker)
    requires IsModePicker(pick)
    requires |t| > 0
    requires forall k :: 0 <= k < |t| ==> FillsDone(t[k])
    ensures var p := Reshape(t, parse, parseBirth, parseStart, pick);
            p.Err? ==> p.error == NotText(Phone) || p.error == NotText(Email)
    ensures var p := Reshape(t, parse, parseBirth, parseStart, pick);
            p.Err? ==> (p.error == NotText(Phone) <==> exists k :: 0 <= k < |t| && !t[k].phone.Str?)
    ensures var p := Reshape(t, parse, parseBirth, parseStart, pick);
            p.Err? && p.error == NotText(Email) ==> StrAccessorRefuses(ColumnOf(t, Email))
  {
    assert FillsDone(t[0]);
    var ageFill, amountFill, termFill := CorrectTypesFinds(t, parse, parseBirth, parseStart, pick);
    var c := CoerceWith(t, parse, parseBirth, parseStart, ageFill, amountFill, termFill);
    CoerceWithRows(t, parse, parseBirth, parseStart, ageFill, amountFill, termFill);
    CoercionKeepsContacts(t, c);
    StandardizeFormatsSpec(c);
  }

  /** Where a failure of the whole script comes from. */
  lemma CleanSteps(raw: Table, parse: NumberParser, parseBirth: DateParser, parseStart: DateParser, pick: ModePicker)
    requires IsModePicker(pick)
    ensures var f := FillMissing(DropIncomplete(raw), pick);
            && (f.Err? ==> Clean(raw, parse, parseBirth, parseStart, pick) == Err(f.error))
            && (f.Ok? ==>
                  var p := Reshape(f.value, parse, parseBirth, parseStart, pick);
                  && (p.Err? ==> Clean(raw, parse, parseBirth, parseStart, pick) == Err(p.error))
                  && (p.Ok? ==> Clean(raw, parse, parseBirth, parseStart, pick) == DropInvalid(p.value)))
  {
  }

  /** Lines 41-48 fail, if at all, on a value that cannot be compared. */
  lemma DropInvalidNeverNoMode(t: Table)
    ensures DropInvalid(t).Err? ==> !DropInvalid(t).error.NoMode?
  {
  }

  /** Once lines 16-23 have succeeded, lines 26-38 do not fail on a mode. */
  lemma NoModeFailureAfterFill(t: Table, parse: NumberParser, parseBirth: DateParser, parseStart: DateParser, pick: ModePicker)
    requires IsModePicker(pick)
    requires FillMissing(t, pick).Ok?
    ensures var p := Reshape(FillMissing(t, pick).value, parse, parseBirth, parseStart, pick);
            p.Err? ==> !p.error.NoMode?
  {
    FillMissingFails(t, pick);
    FillMissingFills(t, pick);
    var col := ColumnOf(t, Age);
    var i :| 0 <= i < |col| && col[i] != Null;
    ReshapeFails(FillMissing(t, pick).value, parse, parseBirth, parseStart, pick);
  }

  /** The script stops on an empty mode exactly when, after the identity
      drop, one of age, amount and term has no value at all; the age column
      is read first. */
  lemma CleanModeFailure(raw: Table, parse: NumberParser, parseBirth: DateParser, parseStart: DateParser, pick: ModePicker)
    requires IsModePicker(pick)
    ensures var t := DropIncomplete(raw);
            var r := Clean(raw, parse, parseBirth, parseStart, pick);
            && (r.Err? && r.error.NoMode? <==>
                 !(HasValue(ColumnOf(t, Age)) && HasValue(ColumnOf(t, PolicyAmount)) && HasValue(ColumnOf(t, PolicyTerm))))
            && (r.Err? && r.error == NoMode(Age) <==> !HasValue(ColumnOf(t, Age)))
  {
    var t1 := DropIncomplete(raw);
    FillMissingFails(t1, pick);
    CleanSteps(raw, parse, parseBirth, parseStart, pick);
    if FillMissing(t1, pick).Ok? {
      NoModeFailureAfterFill(t1, parse, parseBirth, parseStart, pick);
      var p := Reshape(FillMissing(t1, pick).value, parse, parseBirth, parseStart, pick);
      if p.Ok? {
        DropInvalidNeverNoMode(p.value);
      }
    }
  }
}
