/** What load_data computes, stated independently of how it computes it, and
    the properties that follow: the flags ignore letter case, they do not
    depend on the order of the rows, more rows can only raise them, and a
    code's record depends on that code's rows alone. */
module LoaderProperties {
  import opened Wrappers
  import opened Text
  import opened Loader

  /** Some row with ATC code `code` has a description that, lower-cased,
      contains the trigger word of `s`. */
  ghost predicate Mentions(rows: seq<Row>, code: string, s: Symptom)
  {
    exists r :: r in rows && r.atcCode == Some(code) && r.sideEffect.Some? &&
      Contains(LowerStr(r.sideEffect.value), Trigger(s))
  }

  /** The ATC codes that occur in the table (missing ones excluded). */
  ghost function PresentCodes(rows: seq<Row>): set<string>
  {
    set r | r in rows && r.atcCode.Some? :: r.atcCode.value
  }

  /** The intended flags of one code: each is 1 exactly when one of the
      code's descriptions mentions the symptom. */
  ghost function ExpectedFlags(rows: seq<Row>, c: string): Flags
  {
    Flags(Indicator(Mentions(rows, c, Dizziness)),
          Indicator(Mentions(rows, c, Nausea)),
          Indicator(Mentions(rows, c, Rash)))
  }

  /** The intended result: one record per code present. */
  ghost function Expected(rows: seq<Row>): map<string, Flags>
  {
    map c | c in PresentCodes(rows) :: ExpectedFlags(rows, c)
  }

  lemma ExpectedFlagsGet(rows: seq<Row>, c: string, s: Symptom)
    ensures ExpectedFlags(rows, c).Get(s) == 1 <==> Mentions(rows, c, s)
  {
  }

  /** Two flag vectors agreeing on which symptoms are set are equal. */
  lemma FlagsEqual(a: Flags, b: Flags)
    requires forall s :: a.Get(s) == 1 <==> b.Get(s) == 1
    ensures a == b
  {
    assert a.Get(Dizziness) == b.Get(Dizziness);
    assert a.Get(Nausea) == b.Get(Nausea);
    assert a.Get(Rash) == b.Get(Rash);
  }

  /** The grouped maximum of a flag is 1 exactly when one entry of the
      group has it set. */
  lemma {:induction false} GroupMaxFlag(es: seq<Entry>, c: string, s: Symptom)
    requires c in GroupMax(es)
    ensures GroupMax(es)[c].Get(s) == 1 <==> exists e :: e in es && e.code == c && e.flags.Get(s) == 1
  {
    var prefix := es[..|es| - 1];
    var last := es[|es| - 1];
    assert es == prefix + [last];
    assert forall e :: e in es <==> e in prefix || e == last;
    if c in GroupMax(prefix) {
      GroupMaxFlag(prefix, c, s);
    } else {
      assert c == last.code;
      assert forall e :: e in prefix ==> e.code in Codes(prefix);
    }
  }

  /** The flagged table holds exactly the flagged forms of the rows. */
  lemma FlaggedMembers(rows: seq<Row>, fr: FlaggedRow)
    requires FlagRows(rows).Success?
    ensures fr in FlagRows(rows).value <==>
              exists r :: r in rows && fr == FlagRow(r.atcCode, r.sideEffect.value)
  {
    var t := FlagRows(rows).value;
    if r :| r in rows && fr == FlagRow(r.atcCode, r.sideEffect.value) {
      var i :| 0 <= i < |rows| && rows[i] == r;
      assert t[i] == fr;
    }
  }

  /** The entries that reach the grouping: one per row with a code, keyed by
      that code and carrying that row's flags. */
  lemma EntryMembers(rows: seq<Row>, e: Entry)
    requires FlagRows(rows).Success?
    ensures e in DropMissingCodes(FlagRows(rows).value) <==>
              exists r :: r in rows && r.atcCode == Some(e.code) &&
                e.flags == FlagRow(r.atcCode, r.sideEffect.value).flags
  {
    var t := FlagRows(rows).value;
    if e in DropMissingCodes(t) {
      var fr :| fr in t && fr.atcCode == Some(e.code) && fr.flags == e.flags;
      FlaggedMembers(rows, fr);
    }
    if r :| r in rows && r.atcCode == Some(e.code) && e.flags == FlagRow(r.atcCode, r.sideEffect.value).flags {
      FlaggedMembers(rows, FlagRow(r.atcCode, r.sideEffect.value));
    }
  }

  /** Through the flagging step, the grouped flag of a code is 1 exactly when
      the code's descriptions mention the symptom. */
  lemma GroupedFlagMeansMention(rows: seq<Row>, c: string, s: Symptom)
    requires FlagRows(rows).Success?
    requires c in GroupMax(DropMissingCodes(FlagRows(rows).value))
    ensures GroupMax(DropMissingCodes(FlagRows(rows).value))[c].Get(s) == 1 <==> Mentions(rows, c, s)
  {
    var es := DropMissingCodes(FlagRows(rows).value);
    GroupMaxFlag(es, c, s);
    if Mentions(rows, c, s) {
      var r :| r in rows && r.atcCode == Some(c) && r.sideEffect.Some? &&
        Contains(LowerStr(r.sideEffect.value), Trigger(s));
      EntryMembers(rows, Entry(c, FlagRow(r.atcCode, r.sideEffect.value).flags));
    }
    if e :| e in es && e.code == c && e.flags.Get(s) == 1 {
      EntryMembers(rows, e);
    }
  }

  /** The grouped keys are the codes present in the table. */
  lemma GroupedKeys(rows: seq<Row>)
    requires FlagRows(rows).Success?
    ensures GroupMax(DropMissingCodes(FlagRows(rows).value)).Keys == PresentCodes(rows)
  {
    var es := DropMissingCodes(FlagRows(rows).value);
    forall c | c in PresentCodes(rows) ensures c in Codes(es) {
      var r :| r in rows && r.atcCode == Some(c);
      EntryMembers(rows, Entry(c, FlagRow(r.atcCode, r.sideEffect.value).flags));
    }
    forall c | c in Codes(es) ensures c in PresentCodes(rows) {
      var e :| e in es && e.code == c;
      EntryMembers(rows, e);
    }
  }

  /** load_data fails exactly on a missing description, and otherwise
      returns the intended table. */
  lemma LoadDataMeetsSpec(rows: seq<Row>)
    ensures HasMissingSideEffect(rows) <==> LoadData(rows).Failure?
    ensures !HasMissingSideEffect(rows) ==> LoadData(rows) == Success(Expected(rows))
  {
    if !HasMissingSideEffect(rows) {
      var g := GroupMax(DropMissingCodes(FlagRows(rows).value));
      GroupedKeys(rows);
      forall c | c in g ensures g[c] == Expected(rows)[c] {
        forall s ensures g[c].Get(s) == 1 <==> ExpectedFlags(rows, c).Get(s) == 1 {
          GroupedFlagMeansMention(rows, c, s);
          ExpectedFlagsGet(rows, c, s);
        }
        FlagsEqual(g[c], ExpectedFlags(rows, c));
      }
      assert g == Expected(rows);
    }
  }

  /** The result has one record for each ATC code of the table, and no other;
      a flag is set exactly when one of that code's descriptions mentions the
      symptom's trigger word. */
  lemma LoadDataRecords(rows: seq<Row>, c: string, s: Symptom)
    requires LoadData(rows).Success?
    ensures c in LoadData(rows).value <==> exists r :: r in rows && r.atcCode == Some(c)
    ensures c in LoadData(rows).value ==> (LoadData(rows).value[c].Get(s) == 1 <==> Mentions(rows, c, s))
  {
    LoadDataMeetsSpec(rows);
    if c in LoadData(rows).value {
      assert Expected(rows)[c].Get(s) == Indicator(Mentions(rows, c, s));
    }
    if r :| r in rows && r.atcCode == Some(c) {
      assert c in PresentCodes(rows);
    }
  }

  /** Changing the letter case of any description changes nothing. */
  lemma CaseDoesNotMatter(rows: seq<Row>, rows': seq<Row>)
    requires |rows| == |rows'|
    requires forall i :: 0 <= i < |rows| ==> rows[i].atcCode == rows'[i].atcCode
    requires forall i :: 0 <= i < |rows| ==> rows[i].sideEffect.Some? == rows'[i].sideEffect.Some?
    requires forall i :: 0 <= i < |rows| && rows[i].sideEffect.Some? ==>
               EqualIgnoringCase(rows[i].sideEffect.value, rows'[i].sideEffect.value)
    ensures LoadData(rows) == LoadData(rows')
  {
    assert HasMissingSideEffect(rows) <==> HasMissingSideEffect(rows') by {
      if r :| r in rows && r.sideEffect.None? {
        var i :| 0 <= i < |rows| && rows[i] == r;
        assert rows'[i] in rows';
      }
      if r :| r in rows' && r.sideEffect.None? {
        var i :| 0 <= i < |rows'| && rows'[i] == r;
        assert rows[i] in rows;
      }
    }
    if !HasMissingSideEffect(rows) {
      forall i | 0 <= i < |rows| ensures LowerStr(rows[i].sideEffect.value) == LowerStr(rows'[i].sideEffect.value) {
        assert rows[i] in rows;
        EqualIgnoringCaseIff(rows[i].sideEffect.value, rows'[i].sideEffect.value);
      }
      assert FlagRows(rows).value == FlagRows(rows').value;
    }
  }

  /** Tables with the same rows, however often and in whatever order, have
      the same intended result. */
  lemma ExpectedBySameRows(rows: seq<Row>, rows': seq<Row>)
    requires forall r :: r in rows <==> r in rows'
    ensures Expected(rows) == Expected(rows')
  {
    assert PresentCodes(rows) == PresentCodes(rows');
    forall c | c in PresentCodes(rows) ensures ExpectedFlags(rows, c) == ExpectedFlags(rows', c) {
      assert Mentions(rows, c, Dizziness) <==> Mentions(rows', c, Dizziness);
      assert Mentions(rows, c, Nausea) <==> Mentions(rows', c, Nausea);
      assert Mentions(rows, c, Rash) <==> Mentions(rows', c, Rash);
    }
  }

  /** The result does not depend on the order of the rows. */
  lemma OrderDoesNotMatter(rows: seq<Row>, rows': seq<Row>)
    requires multiset(rows) == multiset(rows')
    ensures LoadData(rows) == LoadData(rows')
  {
    forall r ensures r in rows <==> r in rows' {
      assert r in rows <==> r in multiset(rows);
      assert r in rows' <==> r in multiset(rows');
    }
    LoadDataMeetsSpec(rows);
    LoadDataMeetsSpec(rows');
    assert HasMissingSideEffect(rows) <==> HasMissingSideEffect(rows');
    ExpectedBySameRows(rows, rows');
  }

  /** Appending rows keeps every code and can turn a flag on but never off. */
  lemma MoreRowsOnlyRaiseFlags(rows: seq<Row>, more: seq<Row>, c: string, s: Symptom)
    requires LoadData(rows + more).Success?
    requires c in LoadData(rows).value
    ensures c in LoadData(rows + more).value
    ensures LoadData(rows).value[c].Get(s) <= LoadData(rows + more).value[c].Get(s)
  {
    var all := rows + more;
    assert forall r :: r in rows ==> r in all;
    assert !HasMissingSideEffect(rows);
    LoadDataRecords(rows, c, s);
    LoadDataRecords(all, c, s);
    var r :| r in rows && r.atcCode == Some(c);
    assert r in all;
  }

  /** Rows aligned index by index, with the same codes and the same answer
      to whether the description mentions the trigger word of `s`. */
  ghost predicate AgreeOn(rows: seq<Row>, rows': seq<Row>, s: Symptom)
  {
    && |rows| == |rows'|
    && (forall i :: 0 <= i < |rows| ==> rows[i].atcCode == rows'[i].atcCode)
    && (forall i :: 0 <= i < |rows| ==> rows[i].sideEffect.Some? == rows'[i].sideEffect.Some?)
    && (forall i :: 0 <= i < |rows| && rows[i].sideEffect.Some? && rows'[i].sideEffect.Some? ==>
          (Contains(LowerStr(rows[i].sideEffect.value), Trigger(s)) <==>
           Contains(LowerStr(rows'[i].sideEffect.value), Trigger(s))))
  }

  lemma MentionCarriesOver(rows: seq<Row>, rows': seq<Row>, c: string, s: Symptom)
    requires AgreeOn(rows, rows', s)
    ensures Mentions(rows, c, s) ==> Mentions(rows', c, s)
    ensures (exists r :: r in rows && r.atcCode == Some(c)) ==> exists r :: r in rows' && r.atcCode == Some(c)
    ensures HasMissingSideEffect(rows) ==> HasMissingSideEffect(rows')
  {
    if r :| r in rows && r.sideEffect.None? {
      var j :| 0 <= j < |rows| && rows[j] == r;
      assert rows'[j] in rows';
    }
    if Mentions(rows, c, s) {
      var m :| m in rows && m.atcCode == Some(c) && m.sideEffect.Some? &&
        Contains(LowerStr(m.sideEffect.value), Trigger(s));
      var j :| 0 <= j < |rows| && rows[j] == m;
      assert rows'[j] in rows';
    }
    if r :| r in rows && r.atcCode == Some(c) {
      var j :| 0 <= j < |rows| && rows[j] == r;
      assert rows'[j] in rows';
    }
  }

  lemma AgreeOnSymmetric(rows: seq<Row>, rows': seq<Row>, s: Symptom)
    requires AgreeOn(rows, rows', s)
    ensures AgreeOn(rows', rows, s)
  {
  }

  /** The flags are computed independently: a code's flag for `s` is the
      same in two tables whose rows carry the same codes and agree row by row
      on whether the description mentions the trigger word of `s`, however
      they differ on the other symptoms. */
  lemma SymptomFlagIndependent(rows: seq<Row>, rows': seq<Row>, c: string, s: Symptom)
    requires AgreeOn(rows, rows', s)
    requires LoadData(rows).Success?
    requires c in LoadData(rows).value
    ensures LoadData(rows').Success? && c in LoadData(rows').value
    ensures LoadData(rows).value[c].Get(s) == LoadData(rows').value[c].Get(s)
  {
    AgreeOnSymmetric(rows, rows', s);
    MentionCarriesOver(rows, rows', c, s);
    MentionCarriesOver(rows', rows, c, s);
    LoadDataMeetsSpec(rows);
    LoadDataMeetsSpec(rows');
    assert c in PresentCodes(rows);
    var r :| r in rows && r.atcCode == Some(c);
    assert c in PresentCodes(rows');
    ExpectedFlagsGet(rows, c, s);
    ExpectedFlagsGet(rows', c, s);
  }

  /** The rows of the table whose ATC code is `code`, in order. */
  function RowsOf(rows: seq<Row>, code: string): (sub: seq<Row>)
    ensures forall r :: r in sub <==> r in rows && r.atcCode == Some(code)
  {
    if rows == [] then
      []
    else
      assert forall r :: r in rows <==> r == rows[0] || r in rows[1..];
      (if rows[0].atcCode == Some(code) then [rows[0]] else []) + RowsOf(rows[1..], code)
  }

  lemma OwnRowsMention(rows: seq<Row>, c: string, s: Symptom)
    ensures Mentions(RowsOf(rows, c), c, s) <==> Mentions(rows, c, s)
  {
    if Mentions(rows, c, s) {
      var r :| r in rows && r.atcCode == Some(c) && r.sideEffect.Some? &&
        Contains(LowerStr(r.sideEffect.value), Trigger(s));
      assert r in RowsOf(rows, c);
    }
  }

  lemma OwnRowsExpected(rows: seq<Row>, c: string)
    requires c in PresentCodes(rows)
    ensures Expected(RowsOf(rows, c)) == map[c := ExpectedFlags(rows, c)]
  {
    var own := RowsOf(rows, c);
    assert PresentCodes(own) == {c} by {
      var r :| r in rows && r.atcCode == Some(c);
      assert r in own;
    }
    OwnRowsMention(rows, c, Dizziness);
    OwnRowsMention(rows, c, Nausea);
    OwnRowsMention(rows, c, Rash);
    assert ExpectedFlags(own, c) == ExpectedFlags(rows, c);
  }

  /** A code's record is the one the code's own rows give on their own: the
      other codes' descriptions do not affect it. */
  lemma RecordDependsOnOwnRows(rows: seq<Row>, c: string)
    requires LoadData(rows).Success?
    requires c in LoadData(rows).value
    ensures LoadData(RowsOf(rows, c)) == Success(map[c := LoadData(rows).value[c]])
  {
    var own := RowsOf(rows, c);
    LoadDataMeetsSpec(rows);
    LoadDataMeetsSpec(own);
    assert !HasMissingSideEffect(own);
    OwnRowsExpected(rows, c);
  }

  /** A code's flag for `s` is decided by that code's own rows alone: two
      tables whose rows for the code line up and agree on whether each
      description mentions the trigger substring of `s` give the code the
      same flag, whatever their other rows and other symptoms say. */
  lemma OwnRowsTriggerDecides(rows: seq<Row>, rows': seq<Row>, c: string, s: Symptom)
    requires LoadData(rows).Success? && LoadData(rows').Success?
    requires c in LoadData(rows).value
    requires AgreeOn(RowsOf(rows, c), RowsOf(rows', c), s)
    ensures c in LoadData(rows').value
    ensures LoadData(rows).value[c].Get(s) == LoadData(rows').value[c].Get(s)
  {
    var own := RowsOf(rows, c);
    var own' := RowsOf(rows', c);
    RecordDependsOnOwnRows(rows, c);
    assert c in LoadData(own).value;
    SymptomFlagIndependent(own, own', c, s);
    LoadDataMeetsSpec(own');
    LoadDataMeetsSpec(rows');
    assert c in PresentCodes(own');
    var r :| r in own' && r.atcCode == Some(c);
    assert r in rows';
    assert c in PresentCodes(rows');
    RecordDependsOnOwnRows(rows', c);
  }

  /** The same table with every missing ATC code replaced by 'unknown'. */
  function FillCodes(rows: seq<Row>): (filled: seq<Row>)
    ensures |filled| == |rows|
    ensures forall i :: 0 <= i < |rows| ==>
              filled[i] == Row(Some(CodeOrUnknown(rows[i].atcCode)), rows[i].sideEffect)
  {
    seq(|rows|, i requires 0 <= i < |rows| => Row(Some(CodeOrUnknown(rows[i].atcCode)), rows[i].sideEffect))
  }

  /** Filling the codes before grouping is load_data on the filled table, so
      the rows without a code form the group 'unknown'. */
  lemma KeepingUnknownMeetsSpec(rows: seq<Row>)
    ensures LoadDataKeepingUnknown(rows) == LoadData(FillCodes(rows))
    ensures !HasMissingSideEffect(rows) ==>
              LoadDataKeepingUnknown(rows) == Success(Expected(FillCodes(rows)))
    ensures !HasMissingSideEffect(rows) && (exists r :: r in rows && r.atcCode.None?) ==>
              "unknown" in LoadDataKeepingUnknown(rows).value
  {
    var filled := FillCodes(rows);
    assert HasMissingSideEffect(rows) <==> HasMissingSideEffect(filled) by {
      if r :| r in rows && r.sideEffect.None? {
        var i :| 0 <= i < |rows| && rows[i] == r;
        assert filled[i] in filled;
      }
      if r :| r in filled && r.sideEffect.None? {
        var i :| 0 <= i < |filled| && filled[i] == r;
        assert rows[i] in rows;
      }
    }
    if !HasMissingSideEffect(rows) {
      var t := FlagRows(rows).value;
      var t' := FlagRows(filled).value;
      assert FillMissingCodes(t) == DropMissingCodes(t') by {
        FillEqualsDrop(t, t');
      }
      LoadDataMeetsSpec(filled);
      if r :| r in rows && r.atcCode.None? {
        var i :| 0 <= i < |rows| && rows[i] == r;
        assert filled[i] in filled && filled[i].atcCode == Some("unknown");
        assert "unknown" in PresentCodes(filled);
      }
    }
  }

  /** Filling the codes of the flagged rows, then taking every row, gives the
      same entries as dropping the (now absent) missing codes. */
  lemma {:induction false} FillEqualsDrop(t: seq<FlaggedRow>, t': seq<FlaggedRow>)
    requires |t| == |t'|
    requires forall i :: 0 <= i < |t| ==>
               t'[i] == FlaggedRow(Some(CodeOrUnknown(t[i].atcCode)), t[i].sideEffect, t[i].flags)
    ensures FillMissingCodes(t) == DropMissingCodes(t')
  {
    if t != [] {
      FillEqualsDrop(t[1..], t'[1..]);
    }
  }

  /** Because the grouping drops rows without an ATC code, fillna('unknown')
      at the end of load_data never sees one: those rows vanish instead of
      forming the group 'unknown' that the filled variant produces. */
  lemma MissingCodeRowsVanish(rows: seq<Row>)
    requires !HasMissingSideEffect(rows)
    requires exists r :: r in rows && r.atcCode.None?
    requires forall r :: r in rows ==> r.atcCode != Some("unknown")
    ensures "unknown" !in LoadData(rows).value
    ensures "unknown" in LoadDataKeepingUnknown(rows).value
  {
    LoadDataMeetsSpec(rows);
    KeepingUnknownMeetsSpec(rows);
  }

  lemma NauseaFlags()
    ensures FlagRow(Some("unknown"), "Nausea").flags == Flags(0, 1, 0)
  {
    var lowered := LowerStr("Nausea");
    assert lowered == "nausea" by {
      assert lowered[0] == Lower('N') == 'n';
    }
    assert OccursAt(lowered, Trigger(Nausea), 0);
    forall i ensures !OccursAt(lowered, Trigger(Rash), i) {
      if 0 <= i && i + 4 <= 6 {
        assert lowered[i + 1] != 'a' || lowered[i] != 'r';
      }
    }
  }

  /** A one-row table whose row lacks its ATC code: load_data drops the row,
      while filling the code first keeps it as the group 'unknown'. */
  lemma MissingCodeExample()
    ensures LoadData([Row(None, Some("Nausea"))]) == Success(map[])
    ensures LoadDataKeepingUnknown([Row(None, Some("Nausea"))]) == Success(map["unknown" := Flags(0, 1, 0)])
  {
    var rows := [Row(None, Some("Nausea"))];
    assert !HasMissingSideEffect(rows);
    LoadDataMeetsSpec(rows);
    assert PresentCodes(rows) == {};
    var t := FlagRows(rows).value;
    assert t == [FlagRow(None, "Nausea")];
    var es := FillMissingCodes(t);
    assert es == [Entry("unknown", FlagRow(None, "Nausea").flags)];
    NauseaFlags();
    assert FlagRow(None, "Nausea").flags == FlagRow(Some("unknown"), "Nausea").flags;
    assert GroupMax(es) == map["unknown" := Flags(0, 1, 0)] by {
      assert es[..0] == [];
    }
  }
}
