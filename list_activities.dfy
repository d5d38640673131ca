/**
 * The subjects panel (`ListActivities`): the staff member's comma-separated
 * subjects, read from the database, cleaned into a list, with the loading
 * and error states around the read.
 */
module ListActivities {
  import opened Optional
  import opened JsString

  /** The message shown when the read fails. */
  const LoadError: string := "Failed to load subjects"

  /** Each piece trimmed, in order, with the pieces that trim to "" dropped. */
  function CleanPieces(pieces: seq<string>): seq<string>
    decreases |pieces|
  {
    if pieces == [] then []
    else
      var t := Trim(pieces[0]);
      (if t == "" then [] else [t]) + CleanPieces(pieces[1..])
  }

  /**
   * `subjects.split(",").map(s => s.trim()).filter(s => s)`: no parsed
   * subject is empty, padded with whitespace, or holds a comma.
   */
  function ParseSubjects(subjects: string): (r: seq<string>)
    ensures forall e :: e in r ==> CleanSubject(e)
  {
    CleanPiecesAreClean(Split(subjects, ','));
    CleanPieces(Split(subjects, ','))
  }

  /** Trimming only removes characters. */
  lemma TrimKeepsCharacters(s: string, c: char)
    requires c in Trim(s)
    ensures c in s
  {
    var t := TrimStart(s);
    var r := TrimEnd(t);
    assert r == Trim(s);
    var i :| 0 <= i < |r| && r[i] == c;
    assert t[i] == c;
    assert s[|s| - |t| + i] == c;
  }

  /** An entry is non-empty, has no whitespace at either end, and no comma. */
  predicate CleanSubject(e: string) {
    e != "" && Trim(e) == e && ',' !in e
  }

  /** Cleaning comma-free pieces gives clean entries only. */
  lemma {:induction false} CleanPiecesAreClean(pieces: seq<string>)
    requires forall p :: p in pieces ==> ',' !in p
    ensures forall e :: e in CleanPieces(pieces) ==> CleanSubject(e)
    decreases |pieces|
  {
    if pieces != [] {
      assert forall p :: p in pieces[1..] ==> p in pieces;
      CleanPiecesAreClean(pieces[1..]);
      var t := Trim(pieces[0]);
      if t != "" {
        TrimmedPieceClean(pieces[0]);
      }
      assert CleanPieces(pieces) == (if t == "" then [] else [t]) + CleanPieces(pieces[1..]);
    }
  }

  /** A comma-free piece that is not blank trims to a clean entry. */
  lemma TrimmedPieceClean(p: string)
    requires ',' !in p && Trim(p) != ""
    ensures CleanSubject(Trim(p))
  {
    TrimOfTrimmed(Trim(p));
    if ',' in Trim(p) {
      TrimKeepsCharacters(p, ',');
    }
  }

  /** Clean pieces come through unchanged. */
  lemma {:induction false} CleanPiecesOfClean(pieces: seq<string>)
    requires forall p :: p in pieces ==> CleanSubject(p)
    ensures CleanPieces(pieces) == pieces
    decreases |pieces|
  {
    if pieces != [] {
      CleanPiecesOfClean(pieces[1..]);
      assert CleanSubject(pieces[0]);
      assert [pieces[0]] + pieces[1..] == pieces;
    }
  }

  /** Cleaning distributes over concatenation: order is kept. */
  lemma {:induction false} CleanPiecesAppend(a: seq<string>, b: seq<string>)
    ensures CleanPieces(a + b) == CleanPieces(a) + CleanPieces(b)
    decreases |a|
  {
    if a == [] {
      assert a + b == b;
    } else {
      var h := if Trim(a[0]) == "" then [] else [Trim(a[0])];
      assert (a + b)[0] == a[0] && (a + b)[1..] == a[1..] + b;
      assert CleanPieces(a + b) == h + CleanPieces(a[1..] + b);
      CleanPiecesAppend(a[1..], b);
      assert h + (CleanPieces(a[1..]) + CleanPieces(b)) == (h + CleanPieces(a[1..])) + CleanPieces(b);
    }
  }

  /** A list of clean subjects written with commas reads back as the same list. */
  lemma ParseJoinedSubjects(names: seq<string>)
    requires |names| >= 1
    requires forall p :: p in names ==> CleanSubject(p)
    ensures ParseSubjects(Join(names, ',')) == names
  {
    SplitJoin(names, ',');
    CleanPiecesOfClean(names);
  }

  /**
   * The text before the first comma gives the first subject, trimmed, unless
   * it is blank; the subjects after the comma follow in their order.
   */
  lemma ParseSubjectsAppend(a: string, b: string)
    requires ',' !in a
    ensures ParseSubjects(a + [','] + b) == (if AllWhitespace(a) then [] else [Trim(a)]) + ParseSubjects(b)
  {
    SplitAfterPiece(a, ',', b);
    CleanPiecesAppend([a], Split(b, ','));
    assert CleanPieces([a]) == (if Trim(a) == "" then [] else [Trim(a)]) + CleanPieces([]);
  }

  /** The `subjects` column as read: absent, a string, or a value of another type. */
  datatype SubjectsValue = Missing | Text(text: string) | NotText

  /** The outcome of the read: an error (thrown or returned), or the row's `subjects`. */
  datatype Response = ReadFailed | Read(subjects: SubjectsValue)

  /** The list shown for a successful read: only a non-empty string is parsed. */
  function SubjectsOf(value: SubjectsValue): (r: seq<string>)
    ensures forall e :: e in r ==> CleanSubject(e)
    ensures !value.Text? ==> r == []
    ensures value.Text? ==> r == ParseSubjects(value.text)
  {
    EmptyTextListsNothing();
    if value.Text? && value.text != "" then ParseSubjects(value.text) else []
  }

  /** Parsing an empty subjects string lists nothing, so skipping it changes nothing. */
  lemma EmptyTextListsNothing()
    ensures ParseSubjects([]) == []
  {
    var e: string := [];
    SplitNoSeparator(e, ',');
    BlankPieceDropped(e);
  }

  /** A blank piece alone leaves nothing. */
  lemma BlankPieceDropped(p: string)
    requires AllWhitespace(p)
    ensures CleanPieces([p]) == []
  {
    assert [p][1..] == [];
  }

  /** The panel's state. */
  class SubjectsPanel {
    var subjects: seq<string>
    var loading: bool
    var error: Option<string>

    constructor()
      ensures subjects == [] && loading && error.None?
    {
      subjects := [];
      loading := true;
      error := None;
    }

    /**
     * The loading effect: without a session e-mail, loading ends with nothing
     * read; otherwise the error is cleared and the read decides the list, a
     * failure giving an empty list and the error message.
     */
    method Load(sessionEmail: Option<string>, response: Response)
      modifies this
      ensures !loading
      ensures sessionEmail.None? || sessionEmail.value == "" ==> subjects == old(subjects) && error == old(error)
      ensures sessionEmail.Some? && sessionEmail.value != "" ==>
                match response
                case ReadFailed => subjects == [] && error == Some(LoadError)
                case Read(v) => subjects == SubjectsOf(v) && error.None?
      ensures sessionEmail.Some? && sessionEmail.value != "" && response.Read? && response.subjects.Text? ==>
                subjects == ParseSubjects(response.subjects.text)
    {
      if sessionEmail.None? || sessionEmail.value == "" {
        loading := false;
        return;
      }
      loading := true;
      error := None;
      match response {
        case ReadFailed =>
          error := Some(LoadError);
          subjects := [];
        case Read(v) =>
          subjects := SubjectsOf(v);
      }
      loading := false;
    }
  }
}
