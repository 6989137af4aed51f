/** The record set as the cleaning script sees it: a table of policy
    records, one cell per named column. A cell holds what a pandas object
    column can hold at this point of the script: nothing (NaN / NA), a
    string, a number or a parsed date. */
module Frame {

  /** A calendar date produced by the date parser; its fields are never
      inspected by the script. */
  datatype Date = Date(year: int, month: int, day: int)

  datatype Cell = Null | Str(text: string) | Num(number: int) | When(date: Date)

  datatype Column =
    | PolicyHolderName | LastName | Age | Email | Phone | Address
    | PolicyAmount | PolicyTerm | PolicyStatus | BeneficiaryName
    | DateOfBirth | PolicyStartDate

  /** One policy holder entry, in the column order of the input file. */
  datatype Record = Record(
    policyHolderName: Cell,
    lastName: Cell,
    age: Cell,
    email: Cell,
    phone: Cell,
    address: Cell,
    policyAmount: Cell,
    policyTerm: Cell,
    policyStatus: Cell,
    beneficiaryName: Cell,
    dateOfBirth: Cell,
    policyStartDate: Cell)
  {
    /** The cell of column `c`, like `row[c]` in pandas. */
    function Get(c: Column): Cell {
      match c
      case PolicyHolderName => policyHolderName
      case LastName => lastName
      case Age => age
      case Email => email
      case Phone => phone
      case Address => address
      case PolicyAmount => policyAmount
      case PolicyTerm => policyTerm
      case PolicyStatus => policyStatus
      case BeneficiaryName => beneficiaryName
      case DateOfBirth => dateOfBirth
      case PolicyStartDate => policyStartDate
    }

    /** The record with column `c` overwritten by `v` and nothing else changed. */
    function Set(c: Column, v: Cell): (r: Record)
      ensures r.Get(c) == v
      ensures forall d :: d != c ==> r.Get(d) == Get(d)
    {
      match c
      case PolicyHolderName => this.(policyHolderName := v)
      case LastName => this.(lastName := v)
      case Age => this.(age := v)
      case Email => this.(email := v)
      case Phone => this.(phone := v)
      case Address => this.(address := v)
      case PolicyAmount => this.(policyAmount := v)
      case PolicyTerm => this.(policyTerm := v)
      case PolicyStatus => this.(policyStatus := v)
      case BeneficiaryName => this.(beneficiaryName := v)
      case DateOfBirth => this.(dateOfBirth := v)
      case PolicyStartDate => this.(policyStartDate := v)
    }
  }

  type Table = seq<Record>

  /** The column `c` of `t` as a sequence of cells, like `df[c]`. */
  function ColumnOf(t: Table, c: Column): (col: seq<Cell>)
    ensures |col| == |t|
    ensures forall i :: 0 <= i < |t| ==> col[i] == t[i].Get(c)
  {
    seq(|t|, i requires 0 <= i < |t| => t[i].Get(c))
  }

  /** `df[c] = df[c].<elementwise f>`: every row gets `f` of its own cell in
      column `c`; no other column and no row order changes. */
  function MapColumn(t: Table, c: Column, f: Cell -> Cell): (r: Table)
    ensures |r| == |t|
    ensures forall i :: 0 <= i < |t| ==> r[i] == t[i].Set(c, f(t[i].Get(c)))
    ensures forall i :: 0 <= i < |t| ==> r[i].Get(c) == f(t[i].Get(c))
  {
    seq(|t|, i requires 0 <= i < |t| => t[i].Set(c, f(t[i].Get(c))))
  }

  /** Records agreeing on every column are equal. */
  lemma RecordsAgree(r: Record, s: Record)
    requires forall c :: r.Get(c) == s.Get(c)
    ensures r == s
  {
    assert r.Get(PolicyHolderName) == s.Get(PolicyHolderName);
    assert r.Get(LastName) == s.Get(LastName);
    assert r.Get(Age) == s.Get(Age);
    assert r.Get(Email) == s.Get(Email);
    assert r.Get(Phone) == s.Get(Phone);
    assert r.Get(Address) == s.Get(Address);
    assert r.Get(PolicyAmount) == s.Get(PolicyAmount);
    assert r.Get(PolicyTerm) == s.Get(PolicyTerm);
    assert r.Get(PolicyStatus) == s.Get(PolicyStatus);
    assert r.Get(BeneficiaryName) == s.Get(BeneficiaryName);
    assert r.Get(DateOfBirth) == s.Get(DateOfBirth);
    assert r.Get(PolicyStartDate) == s.Get(PolicyStartDate);
  }

  /** Rewriting column `c` leaves every other column of the table as it was. */
  lemma MapColumnKeepsOthers(t: Table, c: Column, f: Cell -> Cell, d: Column)
    requires d != c
    ensures ColumnOf(MapColumn(t, c, f), d) == ColumnOf(t, d)
  {
  }
}
