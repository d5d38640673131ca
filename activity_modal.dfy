/**
 * The activity picker dialog: the radio options derived from the user's
 * activities, the selection and details the dialog holds, and what
 * confirming passes on.
 */
module ActivityModal {
  import opened Optional
  import opened JsString
  import UserActivities

  /** One radio option: its form value and the activity it shows (its label). */
  datatype ActivityOption = ActivityOption(value: string, activity: string)

  /**
   * An option's value: the lower-cased activity with its first space made
   * "_". It has one character per character of the activity: "_" at the
   * activity's first space, the lower-cased character everywhere else.
   */
  function OptionValue(activity: string): (r: string)
    ensures |r| == |activity|
    ensures forall i :: 0 <= i < |activity| ==>
              r[i] == if IndexOf(activity, " ") == Some(i) then '_' else LowerChar(activity[i])
  {
    var low := AsciiLower(activity);
    LowerKeepsFirstSpace(activity);
    if IndexOf(low, " ").Some? then
      UnderscoreAt(low, IndexOf(low, " ").value);
      ReplaceFirst(low, " ", "_")
    else
      ReplaceFirst(low, " ", "_")
  }

  /** One option per activity, in order. */
  function Options(activities: seq<string>): (r: seq<ActivityOption>)
    ensures |r| == |activities|
    ensures forall i :: 0 <= i < |r| ==> r[i] == ActivityOption(OptionValue(activities[i]), activities[i])
  {
    seq(|activities|, i requires 0 <= i < |activities| => ActivityOption(OptionValue(activities[i]), activities[i]))
  }

  /** Lower-casing moves no space: a space sits at the same places before and after. */
  lemma LowerKeepsSpaces(s: string, j: int)
    ensures OccursAt(AsciiLower(s), " ", j) <==> OccursAt(s, " ", j)
  {
    if 0 <= j < |s| {
      assert AsciiLower(s)[j..j + 1] == [LowerChar(s[j])];
      assert s[j..j + 1] == [s[j]];
    }
  }

  /** The first space of the lower-cased text is the first space of the text. */
  lemma LowerKeepsFirstSpace(s: string)
    ensures IndexOf(AsciiLower(s), " ") == IndexOf(s, " ")
  {
    var a := IndexOf(AsciiLower(s), " ");
    var b := IndexOf(s, " ");
    forall j ensures OccursAt(AsciiLower(s), " ", j) <==> OccursAt(s, " ", j) {
      LowerKeepsSpaces(s, j);
    }
    if a.Some? && b.Some? {
      assert !(a.value < b.value) && !(b.value < a.value);
    }
  }

  /** One character of a text replaced by "_": the others stay where they were. */
  lemma UnderscoreAt(low: string, k: nat)
    requires k < |low|
    ensures var v := low[..k] + "_" + low[k + 1..];
            |v| == |low| && forall i :: 0 <= i < |low| ==> v[i] == if i == k then '_' else low[i]
  {
    var v := low[..k] + "_" + low[k + 1..];
    forall i | 0 <= i < |low| ensures v[i] == if i == k then '_' else low[i] {
      if i < k {
        assert v[i] == low[..k][i];
      } else if i > k {
        assert v[i] == low[k + 1..][i - k - 1];
      }
    }
  }

  /** `activitiesOptions.find(o => o.value == valueSelected)`. */
  function FindByValue(options: seq<ActivityOption>, value: string): (r: Option<ActivityOption>)
    ensures r.Some? <==> exists i :: 0 <= i < |options| && options[i].value == value
    ensures r.Some? ==> r.value.value == value && r.value in options
    decreases |options|
  {
    if options == [] then None
    else if options[0].value == value then Some(options[0])
    else
      var r := FindByValue(options[1..], value);
      assert forall i :: 1 <= i < |options| ==> options[i] == options[1..][i - 1];
      r
  }

  /** The option found is the first whose value matches. */
  lemma {:induction false} FindByValueFirst(options: seq<ActivityOption>, value: string, i: nat)
    requires i < |options| && options[i].value == value
    requires forall j :: 0 <= j < i ==> options[j].value != value
    ensures FindByValue(options, value) == Some(options[i])
    decreases i
  {
    if i > 0 {
      assert options[1..][i - 1] == options[i];
      FindByValueFirst(options[1..], value, i - 1);
    }
  }

  /**
   * The option shown as chosen when the dialog opens: the first whose label
   * is the current activity; none when there is no current activity.
   */
  function DefaultOption(options: seq<ActivityOption>, currentActivity: Option<string>): (r: Option<ActivityOption>)
    ensures currentActivity.None? || currentActivity.value == "" ==> r.None?
    ensures r.Some? ==> r.value in options && Some(r.value.activity) == currentActivity
    ensures (currentActivity.Some? && currentActivity.value != "" &&
             exists i :: 0 <= i < |options| && options[i].activity == currentActivity.value) ==> r.Some?
    decreases |options|
  {
    if currentActivity.None? || currentActivity.value == "" || options == [] then None
    else if options[0].activity == currentActivity.value then Some(options[0])
    else
      var r := DefaultOption(options[1..], currentActivity);
      assert forall i :: 1 <= i < |options| ==> options[i] == options[1..][i - 1];
      r
  }

  /**
   * Picking the option of activity `a` selects `a`, whenever no other listed
   * activity has the same option value.
   */
  lemma {:induction false} ChoosingAnOptionSelectsIt(activities: seq<string>, k: nat)
    requires k < |activities|
    requires forall i :: 0 <= i < |activities| && i != k ==> OptionValue(activities[i]) != OptionValue(activities[k])
    ensures FindByValue(Options(activities), OptionValue(activities[k])) == Some(ActivityOption(OptionValue(activities[k]), activities[k]))
  {
    var r := FindByValue(Options(activities), OptionValue(activities[k]));
    var o := r.value;
    assert Options(activities)[k].value == OptionValue(activities[k]);
    var i :| 0 <= i < |activities| && Options(activities)[i] == o;
  }

  /**
   * Activities whose first letters differ, ignoring case, and which do not
   * start with a space have distinct option values.
   */
  lemma FirstLettersSeparateOptions(activities: seq<string>, k: nat)
    requires k < |activities|
    requires forall i :: 0 <= i < |activities| ==> |activities[i]| > 0 && activities[i][0] != ' '
    requires forall i, j :: 0 <= i < j < |activities| ==> LowerChar(activities[i][0]) != LowerChar(activities[j][0])
    ensures FindByValue(Options(activities), OptionValue(activities[k])) == Some(ActivityOption(OptionValue(activities[k]), activities[k]))
  {
    forall i | 0 <= i < |activities|
      ensures OptionValue(activities[i])[0] == LowerChar(activities[i][0])
    {
      assert !OccursAt(activities[i], " ", 0);
    }
    ChoosingAnOptionSelectsIt(activities, k);
  }

  /** Each activity of the signed-in user's list is selected by picking its own option. */
  lemma DefaultActivitiesSelectable(k: nat)
    requires k < |UserActivities.DefaultActivities|
    ensures var acts := UserActivities.DefaultActivities;
            FindByValue(Options(acts), OptionValue(acts[k])) == Some(ActivityOption(OptionValue(acts[k]), acts[k]))
  {
    var acts := UserActivities.DefaultActivities;
    assert acts[0][0] == 'A' && acts[1][0] == 'P' && acts[2][0] == 'R' && acts[3][0] == 'O';
    FirstLettersSeparateOptions(acts, k);
  }

  /** What `onSelect` receives: the activity, and the details or nothing for none. */
  datatype Selection = Selection(activity: string, details: Option<string>)

  /** The dialog's two fields. */
  class ActivityDialog {
    var activitySelected: string
    var detailsActivity: string

    /** The fields start from the slot's current activity and details; a missing one is "". */
    constructor(currentActivity: Option<string>, currentDetails: Option<string>)
      ensures activitySelected == currentActivity.GetOr("")
      ensures detailsActivity == currentDetails.GetOr("")
    {
      activitySelected := currentActivity.GetOr("");
      detailsActivity := currentDetails.GetOr("");
    }

    /** `handleChange`: the label of the first option with that value; an unknown value changes nothing. */
    method HandleChange(options: seq<ActivityOption>, valueSelected: string)
      modifies this
      ensures var found := FindByValue(options, valueSelected);
              activitySelected == (if found.Some? then found.value.activity else old(activitySelected))
      ensures forall i ::
                (0 <= i < |options| && options[i].value == valueSelected &&
                 (forall j :: 0 <= j < i ==> options[j].value != valueSelected))
                ==> activitySelected == options[i].activity
      ensures detailsActivity == old(detailsActivity)
    {
      var found := FindByValue(options, valueSelected);
      forall i | 0 <= i < |options| && options[i].value == valueSelected &&
                 (forall j :: 0 <= j < i ==> options[j].value != valueSelected)
        ensures found == Some(options[i])
      {
        FindByValueFirst(options, valueSelected, i);
      }
      if found.Some? {
        activitySelected := found.value.activity;
      }
    }

    /** The details text field. */
    method SetDetails(text: string)
      modifies this
      ensures detailsActivity == text && activitySelected == old(activitySelected)
    {
      detailsActivity := text;
    }

    /**
     * `handleActivitySelect`: a selection is passed on only when one is made,
     * with empty details passed as nothing; the dialog closes in every case.
     */
    method Confirm() returns (r: Option<Selection>)
      ensures r.None? <==> activitySelected == ""
      ensures r.Some? ==> r.value.activity == activitySelected &&
                          (r.value.details.None? <==> detailsActivity == "") &&
                          (r.value.details.Some? ==> r.value.details.value == detailsActivity)
    {
      if activitySelected != "" {
        r := Some(Selection(activitySelected, if detailsActivity == "" then None else Some(detailsActivity)));
      } else {
        r := None;
      }
    }
  }
}
