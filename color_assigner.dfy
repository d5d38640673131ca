/**
 * `getColorForEmail`: the stand-alone colour assigner that reads and writes
 * the e-mail -> colour table directly in local storage.
 */
module ColorAssigner {
  import opened Optional
  import opened Constants

  /** Local storage's "emailColors" entry, parsed; `None` when absent or empty. */
  class ColorStorage {
    var emailColors: Option<map<string, string>>

    constructor(emailColors: Option<map<string, string>>)
      ensures this.emailColors == emailColors
    {
      this.emailColors := emailColors;
    }
  }

  /** The colour for `email` and the table to save, or `None` when nothing is written. */
  datatype Assignment = Assignment(color: string, write: Option<map<string, string>>)

  /**
   * An address with a non-empty stored colour keeps it; any other address is
   * given the palette entry indexed by the table's size (round-robin), and the
   * extended table is saved. The colour is never empty, and a saved table
   * holds it for the address and keeps every other address as it was.
   */
  function Assign(stored: Option<map<string, string>>, email: string): (r: Assignment)
    ensures r.color != ""
    ensures r.write.None? <==> stored.Some? && email in stored.value && stored.value[email] != ""
    ensures r.write.None? ==> r.color == stored.value[email]
    ensures r.write.Some? ==>
              r.write.value.Keys == stored.GetOr(map[]).Keys + {email} && r.write.value[email] == r.color &&
              forall e :: e in stored.GetOr(map[]) && e != email ==> r.write.value[e] == stored.value[e]
    ensures r.write.Some? ==> r.color == TimeSlotColors[|stored.GetOr(map[])| % |TimeSlotColors|]
  {
    PaletteEntriesNonEmpty();
    var colors := stored.GetOr(map[]);
    if email in colors && colors[email] != "" then Assignment(colors[email], None)
    else
      var c := TimeSlotColors[|colors| % |TimeSlotColors|];
      Assignment(c, Some(colors[email := c]))
  }

  /** The saved table after an assignment. */
  function After(stored: Option<map<string, string>>, email: string): Option<map<string, string>> {
    var a := Assign(stored, email);
    if a.write.Some? then a.write else stored
  }

  /** `getColorForEmail`. */
  method GetColorForEmail(storage: ColorStorage, email: string) returns (color: string)
    modifies storage
    ensures color == Assign(old(storage.emailColors), email).color
    ensures storage.emailColors == After(old(storage.emailColors), email)
  {
    var colors := if storage.emailColors.Some? then storage.emailColors.value else map[];
    if email in colors && colors[email] != "" {
      return colors[email];
    }
    color := TimeSlotColors[|colors| % |TimeSlotColors|];
    storage.emailColors := Some(colors[email := color]);
  }

  /** A second request for the same address returns the same colour and writes nothing. */
  lemma AssignStable(stored: Option<map<string, string>>, email: string)
    ensures var a := Assign(After(stored, email), email);
            a.color == Assign(stored, email).color && a.write.None?
  {
    PaletteEntriesNonEmpty();
  }

  /**
   * An address stored with an empty colour is coloured afresh, with the
   * palette entry the table's size selects, and its entry is overwritten.
   */
  lemma AssignRecolorsBlank(stored: map<string, string>, email: string)
    requires email in stored && stored[email] == ""
    ensures Assign(Some(stored), email).color == TimeSlotColors[|stored| % |TimeSlotColors|]
    ensures After(Some(stored), email) == Some(stored[email := TimeSlotColors[|stored| % |TimeSlotColors|]])
    ensures |After(Some(stored), email).value| == |stored|
  {
    assert stored[email := TimeSlotColors[|stored| % |TimeSlotColors|]].Keys == stored.Keys;
  }

  /** A table 50 entries larger gives a new address the same palette entry. */
  lemma AssignWrapsAround(small: map<string, string>, large: map<string, string>, email: string)
    requires email !in small && email !in large && |large| == |small| + |TimeSlotColors|
    ensures Assign(Some(large), email).color == Assign(Some(small), email).color
  {
    PaletteSize();
    assert |large| % 50 == |small| % 50;
  }

  /** A stored table of fewer than 50 coloured addresses gives a new address the next unused palette entry. */
  lemma AssignNextEntry(stored: map<string, string>, email: string)
    requires email !in stored && |stored| < |TimeSlotColors|
    ensures Assign(Some(stored), email).color == TimeSlotColors[|stored|]
    ensures After(Some(stored), email) == Some(stored[email := TimeSlotColors[|stored|]])
    ensures |After(Some(stored), email).value| == |stored| + 1
  {
    PaletteSize();
    assert |stored| % |TimeSlotColors| == |stored|;
  }
}
