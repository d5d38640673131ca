/**
 * The per-owner colour table of the schedule screen (`useEmailColors`): an
 * e-mail -> colour map kept in memory, a round-robin counter into the
 * palette, and the copy saved in local storage and the cookie.
 */
module EmailColors {
  import opened Optional
  import opened Constants

  type EmailColorMap = map<string, string>

  /**
   * `checkForDuplicateColors`: there are fewer distinct colours than entries,
   * which is the case exactly when two addresses share a colour.
   */
  function HasDuplicateColors(colors: EmailColorMap): (r: bool)
    ensures r <==> SharedColor(colors)
  {
    DuplicateColorsMeansShared(colors);
    |colors.Keys| != |colors.Values|
  }

  /** Two different e-mails are given the same colour. */
  predicate SharedColor(colors: EmailColorMap) {
    exists a, b :: a in colors && b in colors && a != b && colors[a] == colors[b]
  }

  /** The colours of a table are those of the table without `k`, and `k`'s. */
  lemma ValuesWithout(colors: EmailColorMap, k: string)
    requires k in colors
    ensures colors.Values == (colors - {k}).Values + {colors[k]}
  {
    var rest := colors - {k};
    forall v | v in colors.Values ensures v in rest.Values + {colors[k]} {
      var e :| e in colors && colors[e] == v;
      if e != k {
        assert rest[e] == v;
      }
    }
  }

  /** A colour of its own keeps sharing as it was without that entry. */
  lemma SharedWithoutOwnColor(colors: EmailColorMap, k: string)
    requires k in colors && colors[k] !in (colors - {k}).Values
    ensures SharedColor(colors) <==> SharedColor(colors - {k})
  {
    var rest := colors - {k};
    assert forall e | e in colors && e != k :: colors[e] != colors[k] by {
      forall e | e in colors && e != k ensures colors[e] != colors[k] {
        assert rest[e] in rest.Values;
      }
    }
    if SharedColor(colors) {
      var a, b :| a in colors && b in colors && a != b && colors[a] == colors[b];
      assert rest[a] == rest[b];
    }
    if SharedColor(rest) {
      var a, b :| a in rest && b in rest && a != b && rest[a] == rest[b];
      assert colors[a] == colors[b];
    }
  }

  /** Counting entries against distinct colours detects exactly a shared colour. */
  lemma {:induction false} DuplicateColorsMeansShared(colors: EmailColorMap)
    ensures |colors.Keys| != |colors.Values| <==> SharedColor(colors)
    ensures |colors.Values| <= |colors.Keys|
    decreases |colors.Keys|
  {
    if colors.Keys == {} {
      assert colors.Values == {};
    } else {
      var k :| k in colors.Keys;
      var rest := colors - {k};
      DuplicateColorsMeansShared(rest);
      assert colors.Keys == rest.Keys + {k};
      assert k !in rest.Keys;
      ValuesWithout(colors, k);
      if colors[k] in rest.Values {
        var k2 :| k2 in rest && rest[k2] == colors[k];
        assert colors.Values == rest.Values;
        assert k2 in colors && k2 != k && colors[k2] == colors[k];
      } else {
        SharedWithoutOwnColor(colors, k);
      }
    }
  }

  /** `colorsMapRef.current[email]` is truthy: the e-mail has a non-empty colour. */
  predicate HasColor(colors: EmailColorMap, email: string) {
    email in colors && colors[email] != ""
  }

  /** `!email`: the address is absent or empty. */
  predicate NoEmail(email: Option<string>) {
    email.None? || email.value == ""
  }

  /** The colour returned and the colour table after one `getEmailColor`. */
  datatype Pick = Pick(color: string, colors: EmailColorMap, nextColorIndex: nat)

  /**
   * `getEmailColor`: no address gets the last palette colour; a coloured
   * address keeps its colour; any other address takes the next palette
   * colour round-robin, and the counter advances. The colour is never empty,
   * the address ends up with it, no other address is dropped or recoloured,
   * and the table gains at most that address.
   */
  function PickColor(colors: EmailColorMap, nextColorIndex: nat, email: Option<string>): (r: Pick)
    ensures r.color != ""
    ensures !NoEmail(email) ==> HasColor(r.colors, email.value) && r.colors[email.value] == r.color
    ensures forall e :: e in colors && (NoEmail(email) || e != email.value) ==> e in r.colors && r.colors[e] == colors[e]
    ensures r.colors.Keys == colors.Keys + (if NoEmail(email) then {} else {email.value})
    ensures NoEmail(email) ==>
              r.color == TimeSlotColors[|TimeSlotColors| - 1] && r.colors == colors && r.nextColorIndex == nextColorIndex
    ensures !NoEmail(email) && HasColor(colors, email.value) ==>
              r.color == colors[email.value] && r.colors == colors && r.nextColorIndex == nextColorIndex
    ensures !NoEmail(email) && !HasColor(colors, email.value) ==>
              r.color == TimeSlotColors[nextColorIndex % |TimeSlotColors|] && r.nextColorIndex == nextColorIndex + 1
  {
    PaletteEntriesNonEmpty();
    if NoEmail(email) then Pick(TimeSlotColors[|TimeSlotColors| - 1], colors, nextColorIndex)
    else if HasColor(colors, email.value) then Pick(colors[email.value], colors, nextColorIndex)
    else
      var c := TimeSlotColors[nextColorIndex % |TimeSlotColors|];
      Pick(c, colors[email.value := c], nextColorIndex + 1)
  }

  /** Asking again for the same address returns the same colour and changes nothing. */
  lemma PickStable(colors: EmailColorMap, nextColorIndex: nat, email: Option<string>)
    ensures var p := PickColor(colors, nextColorIndex, email);
            PickColor(p.colors, p.nextColorIndex, email) == p
  {
    PaletteEntriesNonEmpty();
  }

  /**
   * The palette is used round-robin: a new address picked with the counter
   * 50 further on gets the same colour.
   */
  lemma PickWrapsAround(colors: EmailColorMap, nextColorIndex: nat, email: Option<string>)
    ensures PickColor(colors, nextColorIndex + |TimeSlotColors|, email).color == PickColor(colors, nextColorIndex, email).color
  {
    PaletteSize();
    assert (nextColorIndex + 50) % 50 == nextColorIndex % 50;
  }

  /**
   * Every entry has a colour and the counter equals the number of entries:
   * the state right after loading a table written by this hook.
   */
  predicate Counted(colors: EmailColorMap, nextColorIndex: nat) {
    nextColorIndex == |colors| && forall e :: e in colors ==> colors[e] != ""
  }

  /** Picking keeps the counter equal to the number of coloured addresses. */
  lemma PickKeepsCounted(colors: EmailColorMap, nextColorIndex: nat, email: Option<string>)
    requires Counted(colors, nextColorIndex)
    ensures var p := PickColor(colors, nextColorIndex, email);
            Counted(p.colors, p.nextColorIndex)
  {
    var p := PickColor(colors, nextColorIndex, email);
    if !NoEmail(email) && !HasColor(colors, email.value) {
      assert email.value !in colors.Keys;
      assert |p.colors.Keys| == |colors.Keys| + 1;
    }
  }

  /**
   * With a counted table holding fewer than 50 addresses, the next new address
   * is given the palette entry at the position of its arrival.
   */
  lemma PickNewArrival(colors: EmailColorMap, nextColorIndex: nat, email: string)
    requires Counted(colors, nextColorIndex) && |colors| < |TimeSlotColors| && email != "" && email !in colors
    ensures PickColor(colors, nextColorIndex, Some(email)).color == TimeSlotColors[|colors|]
  {
    PaletteSize();
    assert nextColorIndex % |TimeSlotColors| == |colors|;
  }

  /**
   * The hook's state: `colors` is `colorsMapRef.current` (the `colorsMap`
   * state is always set from it), `saved` what local storage and the cookie
   * hold under "emailColors".
   */
  class EmailColorStore {
    var colors: EmailColorMap
    var nextColorIndex: nat
    var isLoaded: bool
    var saved: EmailColorMap

    constructor(saved: EmailColorMap)
      ensures colors == map[] && nextColorIndex == 0 && !isLoaded && this.saved == saved
    {
      colors := map[];
      nextColorIndex := 0;
      isLoaded := false;
      this.saved := saved;
    }

    /**
     * `loadColors`. `parsed` is `JSON.parse` of the saved text (local storage,
     * else the cookie, else "{}"), `None` when parsing throws. A table with a
     * shared colour clears the saved copy but is still used in memory.
     */
    method LoadColors(parsed: Option<EmailColorMap>)
      modifies this
      ensures parsed.None? ==> colors == map[] && nextColorIndex == 0 && saved == old(saved)
      ensures parsed.Some? ==> colors == parsed.value && nextColorIndex == |parsed.value| &&
                               saved == (if HasDuplicateColors(parsed.value) then map[] else old(saved))
      ensures isLoaded
    {
      match parsed {
        case None =>
          colors := map[];
          nextColorIndex := 0;
        case Some(table) =>
          if HasDuplicateColors(table) {
            saved := map[];
          }
          colors := table;
          nextColorIndex := |table|;
      }
      isLoaded := true;
    }

    /** The persisting effect: once loaded, the saved copy follows the in-memory table. */
    method Persist()
      modifies this
      ensures saved == (if isLoaded then colors else old(saved))
      ensures colors == old(colors) && nextColorIndex == old(nextColorIndex) && isLoaded == old(isLoaded)
    {
      if isLoaded {
        saved := colors;
      }
    }

    /** `getEmailColor`. */
    method GetEmailColor(email: Option<string>) returns (color: string)
      modifies this
      ensures Pick(color, colors, nextColorIndex) == PickColor(old(colors), old(nextColorIndex), email)
      ensures isLoaded == old(isLoaded) && saved == old(saved)
    {
      if NoEmail(email) {
        return TimeSlotColors[|TimeSlotColors| - 1];
      }
      if HasColor(colors, email.value) {
        return colors[email.value];
      }
      color := TimeSlotColors[nextColorIndex % |TimeSlotColors|];
      nextColorIndex := nextColorIndex + 1;
      colors := colors[email.value := color];
    }

    /** `updateEmailColor`: the address gets `color`; the counter is not touched. */
    method UpdateEmailColor(email: string, color: string)
      modifies this
      ensures colors == old(colors)[email := color]
      ensures nextColorIndex == old(nextColorIndex) && isLoaded == old(isLoaded) && saved == old(saved)
    {
      colors := colors[email := color];
    }
  }

  /**
   * Loading any table and then running the persisting effect saves that same
   * table. For a table with a shared colour this means the clearing done by
   * the load does not last.
   */
  method LoadThenPersist(store: EmailColorStore, table: EmailColorMap)
    modifies store
    ensures store.saved == table && store.colors == table
  {
    store.LoadColors(Some(table));
    store.Persist();
  }
}
