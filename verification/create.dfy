/** Creating a topic or an activity (`handleCreateTopic`,
    `handleCreateActivity`, app/admin/page.tsx lines 105-153): an empty title
    stops the handler before anything is written; otherwise one insert whose
    `order_index` is the current number of siblings plus one. */
module Create {
  import opened Records
  import opened Ordering

  datatype CreateError =
    | TitleRequired     // the blocking alert before any write
    | MissingSelection  // `selected….id` read on a missing selection throws before the insert

  /** The indicator picked in the dashboard, with the topics loaded under it. */
  datatype IndicatorSel = IndicatorSel(id: int, topics: Option<seq<Topic>>)

  /** The topic picked in the dashboard, with the activities loaded under it. */
  datatype TopicSel = TopicSel(id: int, activities: Option<seq<Activity>>)

  /** `insert({ indicator_id, title, description, order_index })` on table `topics`. */
  datatype TopicInsert = TopicInsert(indicatorId: int, title: string, description: string, order: int)

  /** `insert({ topic_id, indicator_id, title, description, order_index })` on table `activities`. */
  datatype ActivityInsert = ActivityInsert(topicId: int, indicatorId: int, title: string, description: string, order: int)

  /** `selected?.children?.length || 0`: the sibling count, an absent list counting 0. */
  function SiblingCount<T>(siblings: Option<seq<T>>): (n: nat)
    ensures siblings.None? ==> n == 0
    ensures siblings.Some? ==> n == |siblings.value|
  {
    |ListOrEmpty(siblings)|
  }

  function CreateTopic(title: string, description: string, indicator: Option<IndicatorSel>): (r: Result<TopicInsert, CreateError>)
    ensures title == "" ==> r == Err(TitleRequired)
    ensures title != "" && indicator.None? ==> r == Err(MissingSelection)
    ensures r.Ok? <==> title != "" && indicator.Some?
    ensures r.Ok? ==>
              && r.value.indicatorId == indicator.value.id
              && r.value.title == title && r.value.description == description
              && r.value.order == SiblingCount(indicator.value.topics) + 1
  {
    if title == "" then Err(TitleRequired)
    else
      var count := match indicator case Some(ind) => SiblingCount(ind.topics) case None => 0;
      match indicator
      case None => Err(MissingSelection)
      case Some(ind) => Ok(TopicInsert(ind.id, title, description, count + 1))
  }

  function CreateActivity(title: string, description: string, topic: Option<TopicSel>, indicator: Option<IndicatorSel>): (r: Result<ActivityInsert, CreateError>)
    ensures title == "" ==> r == Err(TitleRequired)
    ensures title != "" && (topic.None? || indicator.None?) ==> r == Err(MissingSelection)
    ensures r.Ok? <==> title != "" && topic.Some? && indicator.Some?
    ensures r.Ok? ==>
              && r.value.topicId == topic.value.id && r.value.indicatorId == indicator.value.id
              && r.value.title == title && r.value.description == description
              && r.value.order == SiblingCount(topic.value.activities) + 1
  {
    if title == "" then Err(TitleRequired)
    else
      var count := match topic case Some(t) => SiblingCount(t.activities) case None => 0;
      match (topic, indicator)
      case (Some(t), Some(ind)) => Ok(ActivityInsert(t.id, ind.id, title, description, count + 1))
      case _ => Err(MissingSelection)
  }

  /** The row the backend stores for an activity insert, under its new id. */
  function ActivityRow(ins: ActivityInsert, id: int): (a: Activity)
    ensures a.id == id && a.title == ins.title && a.order == Some(ins.order)
  {
    Activity(id, ins.title, Some(ins.order))
  }

  /** The row the backend stores for a topic insert, under its new id. */
  function TopicRow(ins: TopicInsert, id: int): (t: Topic)
    ensures t.id == id && t.title == ins.title && t.order == Some(ins.order) && t.activities.None?
  {
    Topic(id, ins.title, Some(ins.order), None)
  }

  /** When the displayed activities are numbered 1..N, the new one gets a
      position no sibling holds, the list stays numbered 1..N+1, and the next
      load shows it last, in whatever order the backend returns the rows. */
  lemma CreatedActivityAppends(title: string, description: string, topic: TopicSel, indicator: Option<IndicatorSel>,
                               newId: int, arrival: seq<Activity>)
    requires Dense(ListOrEmpty(topic.activities), ActivityPosition)
    requires CreateActivity(title, description, Some(topic), indicator).Ok?
    requires multiset(arrival) == multiset(ListOrEmpty(topic.activities))
                                  + multiset{ActivityRow(CreateActivity(title, description, Some(topic), indicator).value, newId)}
    ensures var shown := ListOrEmpty(topic.activities);
            var row := ActivityRow(CreateActivity(title, description, Some(topic), indicator).value, newId);
            && (forall i :: 0 <= i < |shown| ==> shown[i].order != row.order)
            && Dense(shown + [row], ActivityPosition)
            && SortActivities(arrival) == shown + [row]
  {
    var shown := ListOrEmpty(topic.activities);
    var row := ActivityRow(CreateActivity(title, description, Some(topic), indicator).value, newId);
    var after := shown + [row];
    assert Dense(after, ActivityPosition);
    assert StrictlySortedBy(after, ActivityKey);
    StrictlySortedIsFixed(after, ActivityKey);
    assert multiset(arrival) == multiset(after);
    SortIgnoresArrival(after, arrival, ActivityKey);
  }

  /** The same for topics: numbered 1..N stays numbered 1..N+1 and the new
      topic loads last. */
  lemma CreatedTopicAppends(title: string, description: string, indicator: IndicatorSel,
                            newId: int, arrival: seq<Topic>)
    requires Dense(ListOrEmpty(indicator.topics), TopicPosition)
    requires CreateTopic(title, description, Some(indicator)).Ok?
    requires multiset(arrival) == multiset(ListOrEmpty(indicator.topics))
                                  + multiset{TopicRow(CreateTopic(title, description, Some(indicator)).value, newId)}
    ensures var shown := ListOrEmpty(indicator.topics);
            var row := TopicRow(CreateTopic(title, description, Some(indicator)).value, newId);
            && (forall i :: 0 <= i < |shown| ==> shown[i].order != row.order)
            && Dense(shown + [row], TopicPosition)
            && SortTopics(arrival) == shown + [row]
  {
    var shown := ListOrEmpty(indicator.topics);
    var row := TopicRow(CreateTopic(title, description, Some(indicator)).value, newId);
    var after := shown + [row];
    assert Dense(after, TopicPosition);
    assert StrictlySortedBy(after, TopicKey);
    StrictlySortedIsFixed(after, TopicKey);
    assert multiset(arrival) == multiset(after);
    SortIgnoresArrival(after, arrival, TopicKey);
  }

  /** Count-plus-one is fresh whenever positions are dense, but a deletion
      other than of the last row makes it repeat a position: after a delete
      leaves positions 1 and 3, the next activity is also given 3. */
  lemma GapGivesDuplicatePosition()
    ensures var shown := [Activity(1, "a", Some(1)), Activity(3, "c", Some(3))];
            var r := CreateActivity("new", "", Some(TopicSel(7, Some(shown))), Some(IndicatorSel(5, None)));
            r.Ok? && Some(r.value.order) == shown[1].order
  {
  }
}
