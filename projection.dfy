/** The display copy of the ranked view: DATA NASC rewritten as text in
    dd/mm/yyyy form (a missing date stays missing) and a POSIÇÃO column
    1..N put in front. */
module Projection {
  import opened Wrappers
  import opened Dates
  import opened Roster

  /** One row of the displayed (and exported) table. */
  datatype DisplayRow = DisplayRow(
    posicao: nat,
    cargo: string,
    localidade: string,
    nome: string,
    inscricao: string,
    dataNasc: Option<string>,
    cg: int,
    ce: Score,
    nota: Score,
    negro: string,
    pcd: string,
    status: string)

  /** The date column through strftime('%d/%m/%Y'): NaT gives no text. */
  function ShowBirth(b: Birth): Option<string>
  {
    match b
    case None => None
    case Some(d) => Some(Format(d))
  }

  /** Row `r` shown at position `pos` (app.py:259-262). */
  function Render(r: Candidate, pos: nat): DisplayRow
  {
    DisplayRow(pos, r.cargo, r.localidade, r.nome, r.inscricao, ShowBirth(r.birth),
               r.cg, r.ce, r.nota, r.negro, r.pcd, r.status)
  }

  /** Reading a displayed row back: the position is dropped and the date
      text parsed again. */
  function Restore(d: DisplayRow): Option<Candidate>
  {
    match d.dataNasc
    case None => Some(Candidate(d.cargo, d.localidade, d.nome, d.inscricao, None,
                                d.cg, d.ce, d.nota, d.negro, d.pcd, d.status))
    case Some(t) =>
      match Parse(t)
      case None => None
      case Some(b) => Some(Candidate(d.cargo, d.localidade, d.nome, d.inscricao, Some(b),
                                     d.cg, d.ce, d.nota, d.negro, d.pcd, d.status))
  }

  /** Rendering loses nothing: the row read back is the row shown. */
  lemma RestoreRender(r: Candidate, pos: nat)
    ensures Restore(Render(r, pos)) == Some(r)
  {
    if r.birth.Some? {
      ParseFormat(r.birth.value);
    }
  }

  /** The projection of the view: row `i` is shown at position `i + 1`,
      with its date as text and every other field as it was. */
  method Project(view: seq<Candidate>) returns (display: seq<DisplayRow>)
    ensures |display| == |view|
    ensures forall i :: 0 <= i < |view| ==> display[i].posicao == i + 1
    ensures forall i :: 0 <= i < |view| ==>
      (view[i].birth.Some? ==> display[i].dataNasc == Some(Format(view[i].birth.value)))
      && (view[i].birth.None? ==> display[i].dataNasc.None?)
    ensures forall i :: 0 <= i < |view| ==> Restore(display[i]) == Some(view[i])
    ensures forall i :: 0 <= i < |view| ==> display[i] == Render(view[i], i + 1)
  {
    display := [];
    var i := 0;
    while i < |view|
      invariant 0 <= i <= |view|
      invariant |display| == i
      invariant forall k :: 0 <= k < i ==> display[k] == Render(view[k], k + 1)
    {
      display := display + [Render(view[i], i + 1)];
      i := i + 1;
    }
    forall k | 0 <= k < |view| ensures Restore(display[k]) == Some(view[k]) {
      RestoreRender(view[k], k + 1);
    }
  }

  /** For a row of the loaded table: a blank or not-a-time cell is shown
      without a date; any other cell is shown as the zero-padded spelling of
      the date it names, which is the cell's own text when the file already
      wrote it zero-padded. */
  lemma DisplayedDateRespellsCell(c: Candidate, raw: RawRow, pos: nat)
    requires LoadedFrom(c, raw)
    ensures var shown := Render(c, pos).dataNasc;
      && (shown.None? <==> IsMissing(raw.dataNasc))
      && (shown.Some? ==> ZeroPadded(shown.value) && Parse(shown.value) == Parse(raw.dataNasc.value))
      && (shown.Some? && ZeroPadded(raw.dataNasc.value) ==> shown == raw.dataNasc)
  {
    if c.birth.Some? {
      var d := c.birth.value;
      FormatIsZeroPadded(d);
      ParseFormat(d);
      if ZeroPadded(raw.dataNasc.value) {
        PaddedCellIsFormat(raw.dataNasc.value);
      }
    }
  }
}
