/**
 * The signed-in user's activity list (`useUserActivities`): the fixed list
 * set once a session e-mail is known, and the guarded append.
 */
module UserActivities {
  import opened Optional
  import opened JsString

  /** The list set for any signed-in user. */
  const DefaultActivities: seq<string> := ["Aula", "Pesquisa", "Reunião", "Outra atividade"]

  /** No entry occurs twice. */
  predicate NoDuplicates(s: seq<string>) {
    forall i, j :: 0 <= i < j < |s| ==> s[i] != s[j]
  }

  /**
   * `addActivity`: the text, untrimmed, is appended when it has a
   * non-whitespace character and is not already listed exactly; otherwise
   * the list is kept.
   */
  function AddActivity(activities: seq<string>, newActivity: string): (r: seq<string>)
    ensures |activities| <= |r| && r[..|activities|] == activities
    ensures |r| == |activities| + 1 <==> !AllWhitespace(newActivity) && newActivity !in activities
    ensures |r| == |activities| + 1 ==> r[|activities|] == newActivity
    ensures |r| == |activities| + 1 || r == activities
  {
    if Trim(newActivity) != "" && newActivity !in activities then activities + [newActivity] else activities
  }

  /** Adding never creates a duplicate, and afterwards the text is listed unless it is blank. */
  lemma AddActivityNoDuplicates(activities: seq<string>, newActivity: string)
    requires NoDuplicates(activities)
    ensures NoDuplicates(AddActivity(activities, newActivity))
    ensures newActivity in AddActivity(activities, newActivity) <==> newActivity in activities || !AllWhitespace(newActivity)
  {
    var r := AddActivity(activities, newActivity);
    if r != activities {
      assert r[|activities|] == newActivity;
    }
  }

  /** The fixed list has no repeated entry. */
  lemma DefaultActivitiesDistinct()
    ensures NoDuplicates(DefaultActivities) && |DefaultActivities| == 4
  {
  }

  /** The hook's state. */
  class ActivityList {
    var activities: seq<string>
    var loading: bool
    var error: Option<string>

    constructor()
      ensures activities == [] && loading && error.None?
    {
      activities := [];
      loading := true;
      error := None;
    }

    /**
     * `fetchActivities`: without a session e-mail nothing changes (the list
     * stays empty and loading stays on); with one, the fixed list is set.
     */
    method FetchActivities(sessionEmail: Option<string>)
      modifies this
      ensures sessionEmail.None? || sessionEmail.value == "" ==>
                activities == old(activities) && loading == old(loading) && error == old(error)
      ensures sessionEmail.Some? && sessionEmail.value != "" ==>
                activities == DefaultActivities && !loading && error == old(error)
    {
      if sessionEmail.None? || sessionEmail.value == "" {
        return;
      }
      loading := true;
      activities := DefaultActivities;
      loading := false;
    }

    /** `addActivity` on the current list. */
    method Add(newActivity: string)
      modifies this
      ensures activities == AddActivity(old(activities), newActivity)
      ensures loading == old(loading) && error == old(error)
    {
      if Trim(newActivity) != "" && newActivity !in activities {
        activities := activities + [newActivity];
      }
    }
  }
}
