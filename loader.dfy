/** The table preparation of app.py's load_data: every side-effect text is
    lower-cased, three 0/1 columns mark whether it mentions dizziness, nausea
    or rash, and the rows are grouped by ATC code taking the maximum of each
    column. */
module Loader {
  import opened Wrappers
  import opened Text

  /** A value of an integer 0/1 column (the result of astype(int) on booleans). */
  type Bit = b: int | 0 <= b <= 1

  /** The symptom categories the app reports on. */
  datatype Symptom = Dizziness | Nausea | Rash

  /** The fixed word whose presence in a lower-cased description sets the flag. */
  function Trigger(s: Symptom): string
  {
    match s
    case Dizziness => "dizziness"
    case Nausea => "nausea"
    case Rash => "rash"
  }

  /** The three flag columns has_dizziness, has_nausea and has_rash. */
  datatype Flags = Flags(hasDizziness: Bit, hasNausea: Bit, hasRash: Bit)
  {
    function Get(s: Symptom): Bit
    {
      match s
      case Dizziness => hasDizziness
      case Nausea => hasNausea
      case Rash => hasRash
    }
  }

  /** One line of meddra_freq.tsv as pandas reads it: either cell may be missing. */
  datatype Row = Row(atcCode: Option<string>, sideEffect: Option<string>)

  /** A row once its description is lower-cased and the flag columns are added. */
  datatype FlaggedRow = FlaggedRow(atcCode: Option<string>, sideEffect: string, flags: Flags)

  /** A row that takes part in the grouping: its key and its flag columns. */
  datatype Entry = Entry(code: string, flags: Flags)

  /** astype(int) cannot convert the missing value that str.contains yields for a
      missing description. */
  datatype LoadError = MissingSideEffect

  /** astype(int) applied to one boolean. */
  function Indicator(b: bool): (r: Bit)
    ensures r == 1 <==> b
  {
    if b then 1 else 0
  }

  /** Lower-cases one description and derives its three flags from the
      lower-cased text. */
  function FlagRow(atcCode: Option<string>, sideEffect: string): (r: FlaggedRow)
    ensures r.atcCode == atcCode && r.sideEffect == LowerStr(sideEffect)
    ensures forall s :: r.flags.Get(s) == 1 <==> exists i :: OccursAt(LowerStr(sideEffect), Trigger(s), i)
  {
    var lowered := LowerStr(sideEffect);
    FlaggedRow(atcCode, lowered, Flags(Indicator(Contains(lowered, Trigger(Dizziness))),
                                       Indicator(Contains(lowered, Trigger(Nausea))),
                                       Indicator(Contains(lowered, Trigger(Rash)))))
  }

  /** Whether some row of the table lacks its description. */
  predicate HasMissingSideEffect(rows: seq<Row>)
  {
    exists r :: r in rows && r.sideEffect.None?
  }

  /** The column operations on the whole table; fails on a missing description. */
  function FlagRows(rows: seq<Row>): (r: Result<seq<FlaggedRow>, LoadError>)
    ensures r.Failure? <==> HasMissingSideEffect(rows)
    ensures r.Success? ==> |r.value| == |rows|
    ensures r.Success? ==> forall i :: 0 <= i < |rows| ==>
              r.value[i] == FlagRow(rows[i].atcCode, rows[i].sideEffect.value)
  {
    if HasMissingSideEffect(rows) then
      Failure(MissingSideEffect)
    else
      Success(seq(|rows|, i requires 0 <= i < |rows| => FlagRow(rows[i].atcCode, rows[i].sideEffect.value)))
  }

  /** Keys that groupby sees: rows whose ATC code is missing are dropped (pandas'
      default dropna=True). */
  function DropMissingCodes(t: seq<FlaggedRow>): (es: seq<Entry>)
    ensures forall e :: e in es <==> exists r :: r in t && r.atcCode == Some(e.code) && r.flags == e.flags
  {
    if t == [] then
      []
    else
      var head := match t[0].atcCode
        case None => []
        case Some(c) => [Entry(c, t[0].flags)];
      assert forall r :: r in t <==> r == t[0] || r in t[1..];
      head + DropMissingCodes(t[1..])
  }

  /** The maximum of two flag vectors, column by column: on 0/1 values this is
      the logical or. */
  function MaxFlags(a: Flags, b: Flags): (m: Flags)
    ensures forall s :: m.Get(s) == 1 <==> a.Get(s) == 1 || b.Get(s) == 1
  {
    Flags(if a.hasDizziness < b.hasDizziness then b.hasDizziness else a.hasDizziness,
          if a.hasNausea < b.hasNausea then b.hasNausea else a.hasNausea,
          if a.hasRash < b.hasRash then b.hasRash else a.hasRash)
  }

  /** The distinct keys among the entries. */
  ghost function Codes(es: seq<Entry>): set<string>
  {
    set e | e in es :: e.code
  }

  /** groupby(code).agg(max), taking the rows in order. */
  function GroupMax(es: seq<Entry>): (g: map<string, Flags>)
    ensures g.Keys == Codes(es)
  {
    if es == [] then
      map[]
    else
      var prefix := es[..|es| - 1];
      var last := es[|es| - 1];
      var g := GroupMax(prefix);
      assert es == prefix + [last];
      assert Codes(es) == Codes(prefix) + {last.code};
      g[last.code := if last.code in g then MaxFlags(g[last.code], last.flags) else last.flags]
  }

  /** load_data: the column operations, then the grouping. The fillna('unknown')
      that follows the grouping has no missing key left to replace, since the
      grouping dropped the rows that lacked a code. */
  function LoadData(rows: seq<Row>): (r: Result<map<string, Flags>, LoadError>)
    ensures r.Failure? <==> HasMissingSideEffect(rows)
  {
    match FlagRows(rows)
    case Failure(e) => Failure(e)
    case Success(t) => Success(GroupMax(DropMissingCodes(t)))
  }

  /** The value fillna('unknown') gives a missing code. */
  function CodeOrUnknown(code: Option<string>): (c: string)
    ensures code.Some? ==> c == code.value
    ensures code.None? ==> c == "unknown"
  {
    match code
    case None => "unknown"
    case Some(c) => c
  }

  /** Keys with the missing code replaced by 'unknown' before grouping, so
      that those rows form their own group. */
  function FillMissingCodes(t: seq<FlaggedRow>): (es: seq<Entry>)
    ensures forall e :: e in es <==> exists r :: r in t && CodeOrUnknown(r.atcCode) == e.code && r.flags == e.flags
  {
    if t == [] then
      []
    else
      assert forall r :: r in t <==> r == t[0] || r in t[1..];
      [Entry(CodeOrUnknown(t[0].atcCode), t[0].flags)] + FillMissingCodes(t[1..])
  }

  /** load_data with fillna('unknown') applied to the codes before the grouping. */
  function LoadDataKeepingUnknown(rows: seq<Row>): (r: Result<map<string, Flags>, LoadError>)
    ensures r.Failure? <==> HasMissingSideEffect(rows)
  {
    match FlagRows(rows)
    case Failure(e) => Failure(e)
    case Success(t) => Success(GroupMax(FillMissingCodes(t)))
  }
}
