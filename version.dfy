/**
 * The application's version text, made from the date of the last commit of
 * a configured repository, and the commit summary read from the hosting
 * service's reply.
 */
module Version {
  import opened Optional
  import opened JsString

  /** The repository whose last commit dates the version. */
  const Owner: string := "facebook"
  const Repo: string := "react"
  const Branch: string := "main"

  /** The version shown when no commit date is known. */
  const FallbackVersion: string := "1.0.0"

  /**
   * The local-time fields of a date as `Date` reports them: the full year,
   * the month counted from 0, the day of the month, hours, minutes, seconds.
   */
  datatype DateParts = DateParts(fullYear: int, month: nat, day: nat, hours: nat, minutes: nat, seconds: nat)

  /** A calendar date from the year 2000 on. */
  predicate ValidDate(d: DateParts) {
    2000 <= d.fullYear && d.month < 12 && 1 <= d.day <= 31 && d.hours < 24 && d.minutes < 60 && d.seconds < 60
  }

  /**
   * `convertToCustomFormat`: "1.<year - 2000>.<MM>.<DD>.<HHmmss>", the month
   * counted from 1. It is never the fallback, and for a calendar date from
   * 2000 on every number reads back from its field.
   */
  function ConvertToCustomFormat(d: DateParts): (r: string)
    ensures r != FallbackVersion
    ensures ValidDate(d) ==>
              ReadsBackAs(Split(r, '.'), d.fullYear - 2000, d.month + 1, d.day, d.hours, d.minutes, d.seconds)
  {
    var t := VersionText(d.fullYear - 2000, d.month + 1, d.day, d.hours, d.minutes, d.seconds);
    assert |t| >= 16;
    if ValidDate(d) then
      TextReadsBack(d.fullYear - 2000, d.month + 1, d.day, d.hours, d.minutes, d.seconds);
      t
    else
      t
  }

  /** The version text of a year offset, month, day and time of day. */
  function VersionText(y: int, mo: nat, dd: nat, h: nat, mi: nat, se: nat): string {
    "1." + IntToString(y) + "." + Pad2(mo) + "." + Pad2(dd) + "." + Pad2(h) + Pad2(mi) + Pad2(se)
  }

  lemma DigitsHaveNoDot(s: string)
    requires IsDigits(s)
    ensures '.' !in s
  {
  }

  /** A dot-free field, a dot, then text whose fields are already known. */
  lemma SplitPrepend(x: string, rest: string, fields: seq<string>)
    requires '.' !in x && Split(rest, '.') == fields
    ensures Split(x + "." + rest, '.') == [x] + fields
  {
    SplitAfterPiece(x, '.', rest);
  }

  /** Regrouping dotted text from the right, one field at a time. */
  lemma RegroupDots(a: string, b: string, c: string, e: string, t: string)
    ensures a + "." + b + "." + c + "." + e + "." + t == a + "." + (b + "." + (c + "." + (e + "." + t)))
  {
    var s4 := e + "." + t;
    assert c + "." + e + "." + t == c + "." + s4;
    var s3 := c + "." + s4;
    assert b + "." + c + "." + e + "." + t == b + "." + s3;
    var s2 := b + "." + s3;
    assert a + "." + b + "." + c + "." + e + "." + t == a + "." + s2;
  }

  /** Five dot-free fields joined by dots split back into those fields. */
  lemma SplitFiveFields(a: string, b: string, c: string, e: string, t: string)
    requires '.' !in a && '.' !in b && '.' !in c && '.' !in e && '.' !in t
    ensures Split(a + "." + b + "." + c + "." + e + "." + t, '.') == [a, b, c, e, t]
  {
    SplitNoSeparator(t, '.');
    SplitPrepend(e, t, [t]);
    SplitPrepend(c, e + "." + t, [e, t]);
    SplitPrepend(b, c + "." + (e + "." + t), [c, e, t]);
    SplitPrepend(a, b + "." + (c + "." + (e + "." + t)), [b, c, e, t]);
    RegroupDots(a, b, c, e, t);
  }

  /** The format's shape, for any digit fields. */
  lemma FormatFields(y: string, mo: string, dd: string, h: string, mi: string, se: string)
    requires IsDigits(y) && IsDigits(mo) && IsDigits(dd) && IsDigits(h) && IsDigits(mi) && IsDigits(se)
    ensures Split("1." + y + "." + mo + "." + dd + "." + h + mi + se, '.') == ["1", y, mo, dd, h + mi + se]
  {
    var t := h + mi + se;
    assert IsDigits(t);
    DigitsHaveNoDot(y);
    DigitsHaveNoDot(mo);
    DigitsHaveNoDot(dd);
    DigitsHaveNoDot(t);
    assert "1." + y + "." + mo + "." + dd + "." + h + mi + se == "1" + "." + y + "." + mo + "." + dd + "." + t;
    SplitFiveFields("1", y, mo, dd, t);
  }

  /**
   * The pieces of a version text, for any year offset and fields: "1", the
   * year offset, the two-digit month, the two-digit day, then HHmmss.
   */
  lemma TextPieces(y: nat, mo: nat, dd: nat, h: nat, mi: nat, se: nat)
    ensures Split(VersionText(y, mo, dd, h, mi, se), '.') ==
            ["1", IntToString(y), Pad2(mo), Pad2(dd), Pad2(h) + Pad2(mi) + Pad2(se)]
  {
    assert IntToString(y) == NatToString(y);
    FormatFields(IntToString(y), Pad2(mo), Pad2(dd), Pad2(h), Pad2(mi), Pad2(se));
  }

  /** The time field: three two-digit numbers read back from their positions. */
  lemma TimeFieldReadsBack(h: nat, mi: nat, se: nat)
    requires h < 24 && mi < 60 && se < 60
    ensures var t := Pad2(h) + Pad2(mi) + Pad2(se);
            |t| == 6 && IsDigits(t) &&
            DigitsValue(t[..2]) == h && DigitsValue(t[2..4]) == mi && DigitsValue(t[4..]) == se
  {
    var t := Pad2(h) + Pad2(mi) + Pad2(se);
    assert t[..2] == Pad2(h) && t[2..4] == Pad2(mi) && t[4..] == Pad2(se);
  }

  /**
   * The five dot-separated pieces `p` of a version text read back as the
   * year offset `y`, the two-digit month and day, and a six-digit time whose
   * pairs are the hours, minutes and seconds.
   */
  predicate ReadsBackAs(p: seq<string>, y: int, mo: nat, dd: nat, h: nat, mi: nat, se: nat) {
    |p| == 5 && p[0] == "1" &&
    IsDigits(p[1]) && DigitsValue(p[1]) == y &&
    IsDigits(p[2]) && |p[2]| == 2 && DigitsValue(p[2]) == mo &&
    IsDigits(p[3]) && |p[3]| == 2 && DigitsValue(p[3]) == dd &&
    |p[4]| == 6 && IsDigits(p[4]) &&
    DigitsValue(p[4][..2]) == h && DigitsValue(p[4][2..4]) == mi && DigitsValue(p[4][4..]) == se
  }

  /**
   * Every number of a version text reads back from its pieces; as
   * `ConvertToCustomFormat(d)` is the version text of `d`'s year offset,
   * month counted from 1, day and time, this holds for every valid date
   * from the year 2000 on.
   */
  lemma TextReadsBack(y: nat, mo: nat, dd: nat, h: nat, mi: nat, se: nat)
    requires mo < 100 && dd < 100 && h < 24 && mi < 60 && se < 60
    ensures ReadsBackAs(Split(VersionText(y, mo, dd, h, mi, se), '.'), y, mo, dd, h, mi, se)
  {
    TextPieces(y, mo, dd, h, mi, se);
    assert IntToString(y) == NatToString(y);
    TimeFieldReadsBack(h, mi, se);
  }

  /** What the commits endpoint answered. */
  datatype Reply =
    | NotOk(status: int, statusText: string)
    | Ok(date: string, sha: string, message: string, author: string)
    | Threw(reason: string)   // the request or reading the body failed

  /** `LastCommitInfo`; absent fields are `None`. */
  datatype CommitInfo = CommitInfo(
    date: Option<string>, hash: Option<string>, shortHash: Option<string>,
    message: Option<string>, author: Option<string>, error: Option<string>)

  /** `sha.substring(0, 7)`. */
  function ShortHash(sha: string): (r: string)
    ensures |r| == if |sha| < 7 then |sha| else 7
    ensures r == sha[..|r|]
  {
    if |sha| < 7 then sha else sha[..7]
  }

  /** `message.split("\n")[0]`: the message up to, and without, its first line break. */
  function FirstLine(message: string): (r: string)
    ensures |r| <= |message| && r == message[..|r|] && '\n' !in r
    ensures |r| < |message| ==> message[|r|] == '\n'
    ensures r == message <==> '\n' !in message
  {
    SplitFirstPiece(message, '\n');
    Split(message, '\n')[0]
  }

  /** The text of the error raised for a refused request. */
  function ApiError(status: int, statusText: string): string {
    "GitHub API Error: " + IntToString(status) + " " + statusText
  }

  /** `getLastCommitInfo`: the reply's commit fields, or every field empty and the error set. */
  function LastCommitInfo(reply: Reply): (r: CommitInfo)
    ensures r.error.Some? <==> !reply.Ok?
    ensures r.error.Some? ==> r.date.None? && r.hash.None? && r.shortHash.None? && r.message.None? && r.author.None?
    ensures reply.NotOk? ==> r.error == Some(ApiError(reply.status, reply.statusText))
    ensures reply.Ok? ==> r.hash == Some(reply.sha) && r.date == Some(reply.date) && r.author == Some(reply.author)
    ensures reply.Ok? ==> r.shortHash == Some(ShortHash(reply.sha)) && r.message == Some(FirstLine(reply.message))
  {
    match reply
    case NotOk(status, statusText) => CommitInfo(None, None, None, None, None, Some(ApiError(status, statusText)))
    case Threw(reason) => CommitInfo(None, None, None, None, None, Some(reason))
    case Ok(date, sha, message, author) =>
      CommitInfo(Some(date), Some(sha), Some(ShortHash(sha)), Some(FirstLine(message)), Some(author), None)
  }

  /**
   * A commit's short hash is the first seven characters of its hash (all of
   * a shorter hash), and its message is the full message up to its first
   * line break.
   */
  lemma CommitSummary(date: string, sha: string, message: string, author: string)
    ensures var r := LastCommitInfo(Ok(date, sha, message, author));
            r.shortHash.Some? && r.hash.Some? && r.message.Some? &&
            |r.shortHash.value| == (if |sha| < 7 then |sha| else 7) &&
            r.shortHash.value == r.hash.value[..|r.shortHash.value|] &&
            '\n' !in r.message.value && |r.message.value| <= |message| &&
            r.message.value == message[..|r.message.value|] &&
            (|r.message.value| < |message| ==> message[|r.message.value|] == '\n')
  {
  }

  /**
   * `lastVersion`: the version from the commit's date when there is one;
   * `readDate` is how `Date` reads the date text. The fallback is shown
   * exactly when no commit date is known.
   */
  function LastVersion(info: CommitInfo, readDate: string -> DateParts): (r: string)
    ensures r == FallbackVersion <==> info.date.None? || info.date.value == ""
  {
    if info.date.Some? && info.date.value != "" then ConvertToCustomFormat(readDate(info.date.value))
    else FallbackVersion
  }
}
