/** The application's static data: palette, commission account, slot length, environment catalogue. */
module Constants {
  import opened JsString

  /** The institutional e-mail domain. */
  const InstitutionalDomain: string := "ifsudestemg.edu.br"

  /** The palette from which owners' colours are drawn, round-robin. */
  const TimeSlotColors: seq<string> := PaletteRow0 + PaletteRow1 + PaletteRow2 + PaletteRow3 + PaletteRow4

  // the palette, ten entries per row
  const PaletteRow0: seq<string> := ["#FFD1DC", "#B5EAD7", "#C7CEEA", "#FFE5B4", "#E2F0CB", "#F8C8DC", "#B2EBF2", "#FFDAC1", "#D5A6BD", "#ACE1AF"]
  const PaletteRow1: seq<string> := ["#DDC4AB", "#A8D8B9", "#C3B1E1", "#FFB7B2", "#A2C7E5", "#E1C4AB", "#B8D8D8", "#D4A5C3", "#A5C3D4", "#D4C3A5"]
  const PaletteRow2: seq<string> := ["#9BB7D4", "#D4B7B7", "#B7D4A5", "#D4A5B7", "#A5B7D4", "#E6B0AA", "#AED6F1", "#F5B7B1", "#C39BD3", "#A9DFBF"]
  const PaletteRow3: seq<string> := ["#D2B4DE", "#F9E79F", "#ABEBC6", "#D7BDE2", "#FAD7A0", "#A3E4D7", "#E8DAEF", "#F5CBA7", "#A2D9CE", "#E8A87C"]
  const PaletteRow4: seq<string> := ["#85C1E9", "#F48FB1", "#76D7C4", "#BAABDA", "#F0B27A", "#7FB3D5", "#D98880", "#73C6B6", "#BB8FCE", "#F1948A"]

  /** The account that owns the recurring (commission) bookings. */
  const CommissionEmail: string := "comissaohorario.sd@ifsudestemg.edu.br"

  const MinutesPerSlot: nat := 15

  const ColorDisabledSlot: string := "#535456"

  const NumberDaysOfWorkWeek: nat := 6

  /** An entry of the static catalogue of bookable environments. */
  datatype Environment = Environment(name: string, shortName: string, id: string)

  /** The catalogue in the order it is written, before sorting. */
  const EnvironmentsAsListed: seq<Environment> := [
    Environment("Laboratório de Informática 1", "Lab. Informática 1", "LabInf1"),
    Environment("Laboratório de Informática 2", "Lab. Informática 2", "LabInf2"),
    Environment("Laboratório de Simulação Ferroviária", "Lab. Simulação Ferroviária", "LabSimFer"),
    Environment("Auditório", "Auditório", "Auditorio")]

  /** `ENVIRONMENTS`: the catalogue sorted by name with the -1/1/0 comparator. */
  const Environments: seq<Environment> := SortByName(EnvironmentsAsListed)

  /** The sort's comparator: -1 when `a` sorts first, 1 when `b` does, 0 on equal names. */
  function CompareByName(a: Environment, b: Environment): int {
    if StringLess(a.name, b.name) then -1 else if StringLess(b.name, a.name) then 1 else 0
  }

  /** No later entry sorts strictly before an earlier one. */
  predicate SortedByName(s: seq<Environment>) {
    forall i, j :: 0 <= i < j < |s| ==> CompareByName(s[i], s[j]) <= 0
  }

  /** Inserts `e` after every entry that does not sort after it (stable). */
  function Insert(e: Environment, sorted: seq<Environment>): (r: seq<Environment>)
    ensures |r| == |sorted| + 1
    decreases |sorted|
  {
    if sorted == [] then [e]
    else if CompareByName(e, sorted[0]) < 0 then [e] + sorted
    else [sorted[0]] + Insert(e, sorted[1..])
  }

  /**
   * `Array.prototype.sort` with the name comparator (a stable sort): one
   * entry out per entry in; `SortByNameCorrect` shows the result ordered by
   * name and holding exactly the entries of `s`.
   */
  function SortByName(s: seq<Environment>): (r: seq<Environment>)
    ensures |r| == |s|
    decreases |s|
  {
    if s == [] then [] else Insert(s[|s| - 1], SortByName(s[..|s| - 1]))
  }

  /** An entry no later entry sorts before, put in front of a sorted list, keeps it sorted. */
  lemma ConsSorted(x: Environment, rest: seq<Environment>)
    requires SortedByName(rest)
    requires forall j :: 0 <= j < |rest| ==> CompareByName(x, rest[j]) <= 0
    ensures SortedByName([x] + rest)
  {
    var r := [x] + rest;
    forall i, j | 0 <= i < j < |r| ensures CompareByName(r[i], r[j]) <= 0 {
      assert r[j] == rest[j - 1];
      if i > 0 {
        assert r[i] == rest[i - 1];
      }
    }
  }

  /** An entry sorting before the head of a sorted list sorts before all of it. */
  lemma BeforeHeadBeforeAll(e: Environment, sorted: seq<Environment>)
    requires SortedByName(sorted) && sorted != [] && CompareByName(e, sorted[0]) < 0
    ensures forall j :: 0 <= j < |sorted| ==> CompareByName(e, sorted[j]) <= 0
  {
    forall j | 0 <= j < |sorted| ensures CompareByName(e, sorted[j]) <= 0 {
      if StringLess(sorted[j].name, e.name) {
        StringLessTransitive(sorted[j].name, e.name, sorted[0].name);
        if j > 0 {
          assert CompareByName(sorted[0], sorted[j]) <= 0;
          StringLessTransitive(sorted[0].name, sorted[j].name, sorted[0].name);
        }
        StringLessIrreflexive(sorted[0].name);
      }
    }
  }

  /** The tail of a sorted list is sorted. */
  lemma TailSorted(sorted: seq<Environment>)
    requires SortedByName(sorted) && sorted != []
    ensures SortedByName(sorted[1..])
  {
    forall i, j | 0 <= i < j < |sorted[1..]| ensures CompareByName(sorted[1..][i], sorted[1..][j]) <= 0 {
      assert sorted[1..][i] == sorted[i + 1] && sorted[1..][j] == sorted[j + 1];
    }
  }

  /**
   * The head of a sorted list sorts no later than anything in its tail with
   * one entry added that does not sort before the head.
   */
  lemma HeadBeforeInserted(e: Environment, sorted: seq<Environment>, rest: seq<Environment>)
    requires SortedByName(sorted) && sorted != [] && CompareByName(e, sorted[0]) >= 0
    requires multiset(rest) == multiset(sorted[1..]) + multiset{e}
    ensures forall j :: 0 <= j < |rest| ==> CompareByName(sorted[0], rest[j]) <= 0
  {
    forall j | 0 <= j < |rest| ensures CompareByName(sorted[0], rest[j]) <= 0 {
      var x := rest[j];
      assert x in multiset(rest);
      if x != e {
        assert x in multiset(sorted[1..]);
        var k :| 0 <= k < |sorted[1..]| && sorted[1..][k] == x;
        assert sorted[k + 1] == x;
      }
    }
  }

  /** Inserting adds exactly the one entry. */
  lemma {:induction false} InsertAddsEntry(e: Environment, sorted: seq<Environment>)
    ensures multiset(Insert(e, sorted)) == multiset(sorted) + multiset{e}
    decreases |sorted|
  {
    if sorted != [] && CompareByName(e, sorted[0]) >= 0 {
      InsertAddsEntry(e, sorted[1..]);
      assert Insert(e, sorted) == [sorted[0]] + Insert(e, sorted[1..]);
      assert sorted == [sorted[0]] + sorted[1..];
    }
  }

  /** Inserting into a sorted list keeps it sorted. */
  lemma {:induction false} InsertSorted(e: Environment, sorted: seq<Environment>)
    requires SortedByName(sorted)
    ensures SortedByName(Insert(e, sorted))
    decreases |sorted|
  {
    if sorted != [] {
      if CompareByName(e, sorted[0]) < 0 {
        BeforeHeadBeforeAll(e, sorted);
        ConsSorted(e, sorted);
        assert Insert(e, sorted) == [e] + sorted;
      } else {
        TailSorted(sorted);
        InsertSorted(e, sorted[1..]);
        var rest := Insert(e, sorted[1..]);
        assert Insert(e, sorted) == [sorted[0]] + rest;
        InsertAddsEntry(e, sorted[1..]);
        HeadBeforeInserted(e, sorted, rest);
        ConsSorted(sorted[0], rest);
      }
    }
  }

  /** The sort orders the catalogue by name and keeps exactly its entries. */
  lemma {:induction false} SortByNameCorrect(s: seq<Environment>)
    ensures SortedByName(SortByName(s))
    ensures multiset(SortByName(s)) == multiset(s)
    decreases |s|
  {
    if s != [] {
      SortByNameCorrect(s[..|s| - 1]);
      InsertSorted(s[|s| - 1], SortByName(s[..|s| - 1]));
      InsertAddsEntry(s[|s| - 1], SortByName(s[..|s| - 1]));
      assert s == s[..|s| - 1] + [s[|s| - 1]];
    }
  }

  lemma Informatica1BeforeInformatica2()
    ensures StringLess(EnvironmentsAsListed[0].name, EnvironmentsAsListed[1].name)
  {
    var a, b := EnvironmentsAsListed[0].name, EnvironmentsAsListed[1].name;
    assert a[..27] == b[..27];
    StringLessAt(a, b, 27);
  }

  lemma Informatica2BeforeSimulacao()
    ensures StringLess(EnvironmentsAsListed[1].name, EnvironmentsAsListed[2].name)
  {
    var a, b := EnvironmentsAsListed[1].name, EnvironmentsAsListed[2].name;
    assert a[..15] == b[..15] == "Laboratório de ";
    StringLessAt(a, b, 15);
  }

  lemma AuditorioBeforeInformatica1()
    ensures StringLess(EnvironmentsAsListed[3].name, EnvironmentsAsListed[0].name)
  {
  }

  lemma Informatica2AfterInformatica1()
    ensures CompareByName(EnvironmentsAsListed[1], EnvironmentsAsListed[0]) == 1
  {
    Informatica1BeforeInformatica2();
    StringLessAsymmetric(EnvironmentsAsListed[0].name, EnvironmentsAsListed[1].name);
  }

  lemma SimulacaoAfterInformatica2()
    ensures CompareByName(EnvironmentsAsListed[2], EnvironmentsAsListed[1]) == 1
  {
    Informatica2BeforeSimulacao();
    StringLessAsymmetric(EnvironmentsAsListed[1].name, EnvironmentsAsListed[2].name);
  }

  lemma AuditorioFirst()
    ensures CompareByName(EnvironmentsAsListed[3], EnvironmentsAsListed[0]) == -1
  {
    AuditorioBeforeInformatica1();
  }

  /** Inserting into a one-entry prefix, by the comparator's verdict. */
  lemma InsertAfterOne(a: Environment, b: Environment)
    requires CompareByName(b, a) >= 0
    ensures Insert(b, [a]) == [a, b]
  {
    assert [a][1..] == [];
  }

  lemma InsertAfterTwo(a: Environment, b: Environment, c: Environment)
    requires CompareByName(c, a) >= 0 && CompareByName(c, b) >= 0
    ensures Insert(c, [a, b]) == [a, b, c]
  {
    assert [a, b][1..] == [b];
    InsertAfterOne(b, c);
  }

  lemma InsertFirst(e: Environment, s: seq<Environment>)
    requires s != [] && CompareByName(e, s[0]) < 0
    ensures Insert(e, s) == [e] + s
  {
  }

  /** One step of the sort: the last entry is inserted into the sorted rest. */
  lemma SortStep(s: seq<Environment>, init: seq<Environment>, last: Environment)
    requires s == init + [last]
    ensures SortByName(s) == Insert(last, SortByName(init))
  {
    assert s[..|s| - 1] == init;
  }

  /** Sorting four entries whose names compare as the catalogue's do moves the last one to the front. */
  lemma SortFour(l: seq<Environment>)
    requires |l| == 4
    requires CompareByName(l[1], l[0]) >= 0 && CompareByName(l[2], l[0]) >= 0
    requires CompareByName(l[2], l[1]) >= 0 && CompareByName(l[3], l[0]) < 0
    ensures SortByName(l) == [l[3], l[0], l[1], l[2]]
  {
    var e0, e1, e2, e3 := l[0], l[1], l[2], l[3];
    SortStep([e0], [], e0);
    InsertAfterOne(e0, e1);
    SortStep([e0, e1], [e0], e1);
    InsertAfterTwo(e0, e1, e2);
    SortStep([e0, e1, e2], [e0, e1], e2);
    SortStep(l, [e0, e1, e2], e3);
    InsertFirst(e3, [e0, e1, e2]);
  }

  lemma SimulacaoAfterInformatica1()
    ensures CompareByName(EnvironmentsAsListed[2], EnvironmentsAsListed[0]) >= 0
  {
    var l := EnvironmentsAsListed;
    Informatica1BeforeInformatica2();
    Informatica2BeforeSimulacao();
    StringLessTransitive(l[0].name, l[1].name, l[2].name);
    StringLessAsymmetric(l[0].name, l[2].name);
  }

  /** Sorting moves Auditório to the front and keeps the laboratories in their listed order. */
  lemma EnvironmentsOrder()
    ensures Environments == [EnvironmentsAsListed[3], EnvironmentsAsListed[0],
                             EnvironmentsAsListed[1], EnvironmentsAsListed[2]]
  {
    Informatica2AfterInformatica1();
    SimulacaoAfterInformatica2();
    SimulacaoAfterInformatica1();
    AuditorioFirst();
    SortFour(EnvironmentsAsListed);
  }

  /** The sorted catalogue: four environments, Auditório first, with distinct ids, sorted by name. */
  lemma EnvironmentsCatalogue()
    ensures |Environments| == 4
    ensures [Environments[0].id, Environments[1].id, Environments[2].id, Environments[3].id]
         == ["Auditorio", "LabInf1", "LabInf2", "LabSimFer"]
    ensures forall i, j :: 0 <= i < j < |Environments| ==> Environments[i].id != Environments[j].id
    ensures SortedByName(Environments)
  {
    EnvironmentsOrder();
    SortByNameCorrect(EnvironmentsAsListed);
    CatalogueIdsDistinct(Environments);
  }

  /** The four catalogue ids differ pairwise. */
  lemma CatalogueIdsDistinct(s: seq<Environment>)
    requires |s| == 4 && [s[0].id, s[1].id, s[2].id, s[3].id] == ["Auditorio", "LabInf1", "LabInf2", "LabSimFer"]
    ensures forall i, j :: 0 <= i < j < |s| ==> s[i].id != s[j].id
  {
    assert s[0].id[0] == 'A' && s[1].id[0] == 'L' && s[2].id[0] == 'L' && s[3].id[0] == 'L';
    assert s[1].id[6] == '1' && s[2].id[6] == '2' && s[3].id[3] == 'S' && s[1].id[3] == 'I' && s[2].id[3] == 'I';
  }

  /** Colours are drawn modulo the palette size, so assignment cycles every 50 owners. */
  lemma PaletteSize()
    ensures |TimeSlotColors| == 50
  {
  }

  /** Every palette entry is a seven-character "#RRGGBB" text, so never empty. */
  lemma PaletteEntriesNonEmpty()
    ensures forall i :: 0 <= i < |TimeSlotColors| ==> |TimeSlotColors[i]| == 7
  {
    assert forall i | 0 <= i < 10 :: |PaletteRow0[i]| == 7 && |PaletteRow1[i]| == 7 && |PaletteRow2[i]| == 7;
    assert forall i | 0 <= i < 10 :: |PaletteRow3[i]| == 7 && |PaletteRow4[i]| == 7;
  }

  /** The commission account is an institutional address; a slot is 15 minutes; a work week has 6 days. */
  lemma FixedValues()
    ensures EndsWith(CommissionEmail, "@" + InstitutionalDomain)
    ensures MinutesPerSlot == 15 && NumberDaysOfWorkWeek == 6
  {
  }
}
