/** The signed-in portal's logic: the status badge and the development roadmap
    of a submission, opening and closing a submission, and adding a comment. */
module Portal {

  import opened Optional
  import opened Text

  // ---------------------------------------------------------------------------
  // Status and roadmap
  // ---------------------------------------------------------------------------

  /** One step of a roadmap. */
  datatype Milestone = Milestone(title: string, completed: bool)

  /** A row of `contact_submissions` as the portal reads it. The status and the
      milestones may be absent (`null`). */
  datatype Submission = Submission(id: string, status: Option<string>, milestones: Option<seq<Milestone>>)

  /** `sub.status || 'Analyzing'`: an absent or empty status shows as "Analyzing". */
  function DisplayStatus(status: Option<string>): (shown: string)
    ensures shown != ""
    ensures status == Some(shown) || shown == "Analyzing"
    ensures status.Some? && status.value != "" ==> shown == status.value
    ensures status.None? || status.value == "" ==> shown == "Analyzing"
  {
    if status.Some? && status.value != "" then status.value else "Analyzing"
  }

  /** `status === s`, where an absent status equals no string. */
  predicate Is(status: Option<string>, s: string) {
    status == Some(s)
  }

  /** The roadmap shown when a submission has no milestones of its own. */
  function DefaultRoadmap(status: Option<string>): (r: seq<Milestone>)
    ensures |r| == 4
    ensures r[0] == Milestone("Initial Analysis", true)
    ensures r[1].title == "Technical Feasibility Study" && (r[1].completed <==> !Is(status, "Analyzing"))
    ensures r[2].title == "Prototype Development" &&
      (r[2].completed <==> Is(status, "In Progress") || Is(status, "Resolved"))
    ensures r[3].title == "Solution Launch" && (r[3].completed <==> Is(status, "Resolved"))
  {
    [ Milestone("Initial Analysis", true),
      Milestone("Technical Feasibility Study", !Is(status, "Analyzing")),
      Milestone("Prototype Development", Is(status, "In Progress") || Is(status, "Resolved")),
      Milestone("Solution Launch", Is(status, "Resolved")) ]
  }

  /** `sub.milestones || [...]`: milestones the submission carries are shown as
      given, an empty list included; only absent ones fall back to the default. */
  function Roadmap(sub: Submission): (r: seq<Milestone>)
    ensures sub.milestones.Some? ==> r == sub.milestones.value
    ensures sub.milestones.None? ==> r == DefaultRoadmap(sub.status)
  {
    if sub.milestones.Some? then sub.milestones.value else DefaultRoadmap(sub.status)
  }

  /** No completed milestone follows one that is not completed. */
  predicate CompletedPrefix(r: seq<Milestone>) {
    forall i, j :: 0 <= i < j < |r| && r[j].completed ==> r[i].completed
  }

  /** The number of completed milestones. */
  function CompletedCount(r: seq<Milestone>): (n: nat)
    ensures n <= |r|
  {
    if r == [] then 0 else (if r[0].completed then 1 else 0) + CompletedCount(r[1..])
  }

  /** Whatever the status, the default roadmap's completed steps form a prefix. */
  lemma DefaultRoadmapIsPrefix(status: Option<string>)
    ensures CompletedPrefix(DefaultRoadmap(status))
  {
    var r := DefaultRoadmap(status);
    forall i, j | 0 <= i < j < |r| && r[j].completed ensures r[i].completed {
      assert "Analyzing" != "In Progress" && "Analyzing" != "Resolved";
    }
  }

  /** How far the default roadmap has progressed for each status: one step while
      analysing, all four when resolved, three in progress, and two for any other
      status, an absent one included. */
  lemma DefaultRoadmapProgress(status: Option<string>)
    ensures Is(status, "Analyzing") ==> CompletedCount(DefaultRoadmap(status)) == 1
    ensures Is(status, "In Progress") ==> CompletedCount(DefaultRoadmap(status)) == 3
    ensures Is(status, "Resolved") ==> CompletedCount(DefaultRoadmap(status)) == 4
    ensures !Is(status, "Analyzing") && !Is(status, "In Progress") && !Is(status, "Resolved") ==>
      CompletedCount(DefaultRoadmap(status)) == 2
  {
    var r := DefaultRoadmap(status);
    var r1, r2, r3 := r[1..], r[2..], r[3..];
    assert r1[1..] == r2 && r2[1..] == r3 && r3[1..] == [];
    assert r1[0] == r[1] && r2[0] == r[2] && r3[0] == r[3];
    assert CompletedCount(r3) == (if r[3].completed then 1 else 0);
    assert CompletedCount(r2) == (if r[2].completed then 1 else 0) + CompletedCount(r3);
    assert CompletedCount(r1) == (if r[1].completed then 1 else 0) + CompletedCount(r2);
    assert CompletedCount(r) == 1 + CompletedCount(r1);
    assert "Analyzing" != "In Progress" && "Analyzing" != "Resolved" && "In Progress" != "Resolved";
  }

  /** Supplied milestones are shown exactly as given, even when there are none;
      without them the roadmap has four steps, the first one done, and the done
      steps come first. */
  lemma RoadmapShape(sub: Submission)
    ensures sub.milestones.Some? ==> Roadmap(sub) == sub.milestones.value
    ensures sub.milestones == Some([]) ==> Roadmap(sub) == []
    ensures sub.milestones.None? ==>
      |Roadmap(sub)| == 4 && Roadmap(sub)[0].completed && CompletedPrefix(Roadmap(sub))
  {
    DefaultRoadmapIsPrefix(sub.status);
  }

  /** A submission without a status reads "Analyzing" on its badge, yet its
      roadmap already marks the feasibility study as done. */
  lemma AbsentStatusShownAnalyzingButPastIt()
    ensures DisplayStatus(None) == "Analyzing"
    ensures DefaultRoadmap(None)[1].completed
    ensures DisplayStatus(Some("")) == "Analyzing" && DefaultRoadmap(Some(""))[1].completed
  {
  }

  // ---------------------------------------------------------------------------
  // Opening a submission, and its comments
  // ---------------------------------------------------------------------------

  /** A row of `submission_comments`. */
  datatype Comment = Comment(submissionId: string, userId: string, content: string)

  /** `fetchComments(id)`: the comments of one submission, oldest first (the
      table is kept in creation order). */
  function CommentsFor(table: seq<Comment>, id: string): (r: seq<Comment>)
    ensures forall c :: c in r <==> c in table && c.submissionId == id
    ensures |r| <= |table|
  {
    if table == [] then []
    else if table[|table| - 1].submissionId == id then
      CommentsFor(table[..|table| - 1], id) + [table[|table| - 1]]
    else CommentsFor(table[..|table| - 1], id)
  }

  /** The fetch keeps creation order: it distributes over concatenation and keeps
      or drops a single comment by its submission. */
  lemma {:induction false} CommentsForAppend(a: seq<Comment>, b: seq<Comment>, id: string)
    ensures CommentsFor(a + b, id) == CommentsFor(a, id) + CommentsFor(b, id)
    ensures |b| == 1 ==> CommentsFor(b, id) == (if b[0].submissionId == id then b else [])
    decreases |b|
  {
    if b == [] {
      assert a + b == a;
    } else {
      var ab := a + b;
      assert ab[..|ab| - 1] == a + b[..|b| - 1] && ab[|ab| - 1] == b[|b| - 1];
      CommentsForAppend(a, b[..|b| - 1], id);
      if |b| == 1 {
        assert b[..0] == [];
      }
    }
  }

  /** The portal's state: the open submission, the comment being typed and the
      comments on screen. */
  datatype View = View(selected: Option<Submission>, newComment: string, comments: seq<Comment>)

  /** `fetchComments`: the list on screen becomes the fetched comments, or stays
      as it was when the fetch returns no data (`fetchFails`). */
  function LoadComments(v: View, table: seq<Comment>, id: string, fetchFails: bool): (r: View)
    ensures r.selected == v.selected && r.newComment == v.newComment
    ensures fetchFails ==> r.comments == v.comments
    ensures !fetchFails ==> r.comments == CommentsFor(table, id)
  {
    if fetchFails then v else v.(comments := CommentsFor(table, id))
  }

  /** Clicking a submission's header: the open one closes, any other one opens
      and its comments are fetched. */
  function ClickSubmission(v: View, sub: Submission, table: seq<Comment>, fetchFails: bool): (r: View)
    ensures r.selected.None? <==> v.selected.Some? && v.selected.value.id == sub.id
    ensures r.selected.Some? ==> r.selected.value == sub
    ensures r.selected.Some? && !fetchFails ==> r.comments == CommentsFor(table, sub.id)
    ensures r.selected.None? || fetchFails ==> r.comments == v.comments
    ensures r.newComment == v.newComment
  {
    if v.selected.Some? && v.selected.value.id == sub.id then v.(selected := None)
    else LoadComments(v.(selected := Some(sub)), table, sub.id, fetchFails)
  }

  /** Clicking the same header twice closes what the first click opened. */
  lemma ClickTwiceCloses(v: View, sub: Submission, table: seq<Comment>, fetchFails: bool, againFails: bool)
    requires v.selected.None?
    ensures ClickSubmission(ClickSubmission(v, sub, table, fetchFails), sub, table, againFails).selected.None?
    ensures ClickSubmission(v, sub, table, fetchFails).selected == Some(sub)
  {
  }

  /** At most one submission is open, and it is the last one clicked unless that
      click closed it. */
  lemma ClickOtherSwitches(v: View, a: Submission, b: Submission, table: seq<Comment>, aFails: bool, bFails: bool)
    requires a.id != b.id
    ensures ClickSubmission(ClickSubmission(v, a, table, aFails), b, table, bFails).selected == Some(b)
    ensures !bFails ==> ClickSubmission(ClickSubmission(v, a, table, aFails), b, table, bFails).comments == CommentsFor(table, b.id)
  {
  }

  /** When the second fetch fails, the newly opened submission shows the comments
      fetched for the one opened before it. */
  lemma FailedFetchShowsStaleComments(a: Submission, b: Submission, table: seq<Comment>, c: Comment)
    requires a.id != b.id && c in table && c.submissionId == a.id
    ensures var r := ClickSubmission(ClickSubmission(View(None, "", []), a, table, false), b, table, true);
      r.selected == Some(b) && c in r.comments && c.submissionId != b.id
  {
  }

  // ---------------------------------------------------------------------------
  // Adding a comment
  // ---------------------------------------------------------------------------

  /** The toast `handleAddComment` shows: "Comment added!" or "Failed to add comment.". */
  datatype CommentToast = Added | AddFailed

  /** The portal, the comment table and the toast after `handleAddComment`. */
  datatype AddOutcome = AddResult(view: View, table: seq<Comment>, toast: Option<CommentToast>)

  /** `handleAddComment` for the signed-in user `userId`; `insertFails` says
      whether the backend rejects the insert, `fetchFails` whether the reload
      after it returns no data. */
  function AddComment(v: View, userId: string, table: seq<Comment>, insertFails: bool, fetchFails: bool): (r: AddOutcome)
    ensures r.toast.None? <==> IsBlank(v.newComment) || v.selected.None?
    ensures r.toast != Some(Added) ==> r.table == table && r.view == v
    ensures r.toast == Some(Added) ==>
      var c := Comment(v.selected.value.id, userId, Trim(v.newComment));
      && r.table == table + [c]
      && r.view.selected == v.selected && r.view.newComment == ""
      && (!fetchFails ==> r.view.comments == CommentsFor(r.table, c.submissionId))
      && (fetchFails ==> r.view.comments == v.comments)
    ensures r.toast == Some(AddFailed) <==> !IsBlank(v.newComment) && v.selected.Some? && insertFails
  {
    if IsBlank(v.newComment) || v.selected.None? then AddResult(v, table, None)
    else
      var c := Comment(v.selected.value.id, userId, Trim(v.newComment));
      if insertFails then AddResult(v, table, Some(AddFailed))
      else
        var t := table + [c];
        AddResult(LoadComments(v.(newComment := ""), t, c.submissionId, fetchFails), t, Some(Added))
  }

  /** When the reload succeeds, the list ends with the new comment, after the
      submission's earlier comments in order. */
  lemma AddedCommentShownLast(v: View, userId: string, table: seq<Comment>)
    requires !IsBlank(v.newComment) && v.selected.Some?
    ensures var r := AddComment(v, userId, table, false, false);
      && r.view.comments == CommentsFor(table, v.selected.value.id) + [Comment(v.selected.value.id, userId, Trim(v.newComment))]
      && r.view.comments[|r.view.comments| - 1].content != []
  {
    var c := Comment(v.selected.value.id, userId, Trim(v.newComment));
    var t := table + [c];
    assert t[..|t| - 1] == table && t[|t| - 1] == c;
  }

  /** A stored comment's content is trimmed and never blank. */
  lemma StoredContentIsTrimmed(v: View, userId: string, table: seq<Comment>, fetchFails: bool)
    requires AddComment(v, userId, table, false, fetchFails).toast == Some(Added)
    ensures var c := AddComment(v, userId, table, false, fetchFails).table[|table|];
      c.content != [] && Trim(c.content) == c.content && c.submissionId == v.selected.value.id
  {
    TrimIdempotent(v.newComment);
  }
}
