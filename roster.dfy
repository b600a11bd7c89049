/** The candidate roster: one record per CSV row, and the loader that turns
    the raw rows into the table every view is derived from. */
module Roster {
  import opened Wrappers
  import opened Dates

  /** A score cell after numeric coercion, in fixed point (hundredths);
      None stands for the NaN that an unparseable cell becomes. */
  type Score = Option<int>

  /** A birth date after conversion; None stands for NaT, the missing date
      that a blank or not-a-time cell becomes. */
  type Birth = Option<CalendarDate>

  /** One candidate. `birth` is DATA NASC; the other fields keep the
      column names of the roster (CG is carried through untouched). */
  datatype Candidate = Candidate(
    cargo: string,
    localidade: string,
    nome: string,
    inscricao: string,
    birth: Birth,
    cg: int,
    ce: Score,
    nota: Score,
    negro: string,
    pcd: string,
    status: string)

  /** A row as read from the file: DATA NASC still text, or None where the
      reader already turned the cell into NaN (an empty cell or one of the
      reader's not-available markers); CE and NOTA already through numeric
      coercion. */
  datatype RawRow = RawRow(
    cargo: string,
    localidade: string,
    nome: string,
    inscricao: string,
    dataNasc: Option<string>,
    cg: int,
    ce: Score,
    nota: Score,
    negro: string,
    pcd: string,
    status: string)

  /** The texts that the date conversion reads as NaT. */
  const NatStrings: set<string> := {"NaT", "nat", "NAT", "nan", "NaN", "NAN"}

  /** A date cell that converts to NaT rather than to a date or an error. */
  predicate IsMissing(cell: Option<string>)
  {
    cell.None? || cell.value == "" || cell.value in NatStrings
  }

  /** to_datetime(format='%d/%m/%Y', errors='raise') on one cell
      (app.py:19): Some(None) for NaT, Some(Some(d)) for a date, None when
      the conversion raises. */
  function ToDatetime(cell: Option<string>): Option<Birth>
  {
    if IsMissing(cell) then Some(None)
    else match Parse(cell.value)
      case None => None
      case Some(d) => Some(Some(d))
  }

  /** A date cell the conversion accepts: missing, or a date. */
  predicate Readable(cell: Option<string>)
  {
    ToDatetime(cell).Some?
  }

  /** The load fails as a whole on the first row whose date does not parse. */
  datatype LoadError = DataFormatError(row: nat)

  function FromRaw(r: RawRow, b: Birth): Candidate
  {
    Candidate(r.cargo, r.localidade, r.nome, r.inscricao, b, r.cg, r.ce, r.nota, r.negro, r.pcd, r.status)
  }

  /** `c` is `raw` with its date converted and nothing else changed. */
  predicate LoadedFrom(c: Candidate, raw: RawRow)
  {
    ToDatetime(raw.dataNasc) == Some(c.birth) && c == FromRaw(raw, c.birth)
  }

  /** load_data (app.py:14-25): the date column is converted for every row;
      the load aborts on the first row whose cell does not convert. No row is
      dropped or reordered. */
  function Load(raw: seq<RawRow>): Result<seq<Candidate>, LoadError>
  {
    if raw == [] then Ok([])
    else match ToDatetime(raw[0].dataNasc)
      case None => Err(DataFormatError(0))
      case Some(d) =>
        match Load(raw[1..])
        case Err(DataFormatError(i)) => Err(DataFormatError(i + 1))
        case Ok(rest) => Ok([FromRaw(raw[0], d)] + rest)
  }

  /** A successful load keeps every row, in file order, with its date
      converted; exactly the rows with a blank or not-a-time cell have no
      birth date. */
  lemma {:induction false} LoadOk(raw: seq<RawRow>)
    requires Load(raw).Ok?
    ensures |Load(raw).value| == |raw|
    ensures forall i :: 0 <= i < |raw| ==> LoadedFrom(Load(raw).value[i], raw[i])
    ensures forall i :: 0 <= i < |raw| ==> (Load(raw).value[i].birth.None? <==> IsMissing(raw[i].dataNasc))
  {
    if raw != [] {
      LoadOk(raw[1..]);
      var t := Load(raw).value;
      forall i | 0 <= i < |raw| ensures LoadedFrom(t[i], raw[i]) {
        if i > 0 {
          assert t[i] == Load(raw[1..]).value[i - 1];
        }
      }
    }
  }

  /** The load fails exactly when some cell is neither blank nor not-a-time
      and does not parse as a date, and then names the first such row. */
  lemma {:induction false} LoadFails(raw: seq<RawRow>)
    ensures Load(raw).Ok? <==> forall i :: 0 <= i < |raw| ==> Readable(raw[i].dataNasc)
    ensures Load(raw).Err? ==>
      var i := Load(raw).error.row;
      i < |raw| && !Readable(raw[i].dataNasc)
      && forall j :: 0 <= j < i ==> Readable(raw[j].dataNasc)
  {
    if raw != [] {
      LoadFails(raw[1..]);
      if Readable(raw[0].dataNasc) {
        assert forall j :: 1 <= j < |raw| ==> raw[j] == raw[1..][j - 1];
      }
    }
  }
}
