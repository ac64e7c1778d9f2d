/** The waitlist dialog of a project page: the star rating control and the
    join procedure, which checks the input, looks for an earlier entry with the
    same normalised email for the same project, and stores a normalised entry. */
module Waitlist {

  import opened Optional
  import opened Text

  // ---------------------------------------------------------------------------
  // Dialog state and the star rating
  // ---------------------------------------------------------------------------

  const MaxStars: nat := 5

  /** The dialog's state hooks. */
  datatype Modal = Modal(
    name: string,
    email: string,
    comment: string,
    rating: nat,
    hovered: nat,
    submitting: bool,
    success: bool)

  /** The dialog as it first opens: empty inputs, no star chosen or lit. */
  function InitialModal(): (m: Modal)
    ensures RatingsInRange(m) && !m.submitting && !m.success
    ensures m.name == [] && m.email == [] && m.comment == []
    ensures forall star :: 1 <= star ==> !Highlighted(m, star)
  {
    Modal("", "", "", 0, 0, false, false)
  }

  /** The star values the dialog can hold: 0 means none chosen or hovered. */
  predicate RatingsInRange(m: Modal) {
    m.rating <= MaxStars && m.hovered <= MaxStars
  }

  /** Clicking star `star` (one of the five buttons) sets the rating to it. */
  function ClickStar(m: Modal, star: nat): (r: Modal)
    requires 1 <= star <= MaxStars
    ensures r.rating == star && r == m.(rating := star)
    ensures RatingsInRange(m) ==> RatingsInRange(r)
  {
    m.(rating := star)
  }

  /** The mouse entering star `star`. */
  function HoverStar(m: Modal, star: nat): (r: Modal)
    requires 1 <= star <= MaxStars
    ensures r.hovered == star && r == m.(hovered := star)
    ensures RatingsInRange(m) ==> RatingsInRange(r)
  {
    m.(hovered := star)
  }

  /** The mouse leaving a star. */
  function LeaveStar(m: Modal): (r: Modal)
    ensures r.hovered == 0 && r == m.(hovered := 0)
    ensures RatingsInRange(m) ==> RatingsInRange(r)
  {
    m.(hovered := 0)
  }

  /** The value the stars show: the hovered star while there is one, else the rating. */
  function Shown(m: Modal): (shown: nat)
    ensures m.hovered != 0 ==> shown == m.hovered
    ensures m.hovered == 0 ==> shown == m.rating
    ensures RatingsInRange(m) ==> shown <= MaxStars
  {
    if m.hovered != 0 then m.hovered else m.rating
  }

  /** Star `star` is drawn filled. */
  function Highlighted(m: Modal, star: nat): (lit: bool)
    ensures lit <==> star <= m.hovered || (m.hovered == 0 && star <= m.rating)
  {
    star <= Shown(m)
  }

  /** The five stars, left to right, as filled or not. */
  function Stars(m: Modal): (s: seq<bool>)
    ensures |s| == MaxStars
    ensures forall i :: 0 <= i < MaxStars ==> s[i] == Highlighted(m, i + 1)
  {
    seq(MaxStars, i requires 0 <= i < MaxStars => Highlighted(m, i + 1))
  }

  /** The filled stars are a prefix of the row, as long as the value shown. */
  lemma StarsArePrefix(m: Modal)
    requires RatingsInRange(m)
    ensures forall i, j :: 0 <= i <= j < MaxStars && Stars(m)[j] ==> Stars(m)[i]
    ensures forall i :: 0 <= i < MaxStars ==> (Stars(m)[i] <==> i < Shown(m))
    ensures Shown(m) <= MaxStars
  {
  }

  /** Hovering previews a star without changing the rating, and leaving restores
      what the rating shows. */
  lemma HoverThenLeave(m: Modal, star: nat)
    requires 1 <= star <= MaxStars && m.hovered == 0
    ensures Stars(LeaveStar(HoverStar(m, star))) == Stars(m)
    ensures LeaveStar(HoverStar(m, star)).rating == m.rating
    ensures forall i :: 0 <= i < MaxStars ==> (Stars(HoverStar(m, star))[i] <==> i < star)
  {
  }

  // ---------------------------------------------------------------------------
  // The table
  // ---------------------------------------------------------------------------

  /** A row of `project_waitlist`. */
  datatype Entry = Entry(
    projectId: string,
    projectName: string,
    name: string,
    email: string,
    rating: Option<nat>,
    comment: Option<string>)

  /** The address the lookup and the insert use: trimmed, then lower-cased. */
  function NormalEmail(email: string): (key: string)
    ensures key == Trim(ToLower(email))
    ensures |key| <= |email|
  {
    TrimToLower(email);
    ToLower(Trim(email))
  }

  /** Normalising is idempotent: a normalised address has no surrounding
      whitespace and no upper-case letter left. */
  lemma NormalEmailIsNormal(email: string)
    ensures NormalEmail(NormalEmail(email)) == NormalEmail(email)
    ensures Trim(NormalEmail(email)) == NormalEmail(email)
    ensures ToLower(NormalEmail(email)) == NormalEmail(email)
  {
    TrimToLower(Trim(email));
    TrimIdempotent(email);
    ToLowerIdempotent(Trim(email));
  }

  /** Whether an entry matches the lookup on email and project. */
  predicate Matches(e: Entry, email: string, projectId: string) {
    e.email == email && e.projectId == projectId
  }

  /** Some row matches the lookup. */
  predicate Present(table: seq<Entry>, email: string, projectId: string) {
    exists i :: 0 <= i < |table| && Matches(table[i], email, projectId)
  }

  /** The number of rows the lookup selects. */
  function MatchCount(table: seq<Entry>, email: string, projectId: string): (n: nat)
    ensures n <= |table|
    ensures n == 0 <==> !Present(table, email, projectId)
  {
    if table == [] then 0
    else
      assert forall i :: 1 <= i < |table| ==> table[i] == table[1..][i - 1];
      (if Matches(table[0], email, projectId) then 1 else 0) + MatchCount(table[1..], email, projectId)
  }

  /** The positions of the rows the lookup selects. */
  function MatchPositions(table: seq<Entry>, email: string, projectId: string): set<nat> {
    set i: nat | i < |table| && Matches(table[i], email, projectId)
  }

  lemma {:induction false} MatchCountSnoc(table: seq<Entry>, e: Entry, email: string, projectId: string)
    ensures MatchCount(table + [e], email, projectId) ==
      MatchCount(table, email, projectId) + (if Matches(e, email, projectId) then 1 else 0)
    decreases |table|
  {
    if table == [] {
      assert table + [e] == [e] && [e][1..] == [];
    } else {
      assert (table + [e])[0] == table[0] && (table + [e])[1..] == table[1..] + [e];
      MatchCountSnoc(table[1..], e, email, projectId);
    }
  }

  /** One more row adds its position when it matches. */
  lemma MatchPositionsSnoc(table: seq<Entry>, e: Entry, email: string, projectId: string)
    ensures MatchPositions(table + [e], email, projectId) ==
      MatchPositions(table, email, projectId) + (if Matches(e, email, projectId) then {|table|} else {})
  {
    var all := table + [e];
    assert forall i :: 0 <= i < |table| ==> all[i] == table[i];
    assert all[|table|] == e;
  }

  /** The lookup's row count is the number of rows with that email and project,
      which decides whether `maybeSingle` returns a row or an error. */
  lemma {:induction false} MatchCountIsMatchingRows(table: seq<Entry>, email: string, projectId: string)
    ensures MatchCount(table, email, projectId) == |MatchPositions(table, email, projectId)|
    decreases |table|
  {
    if table == [] {
      assert MatchPositions(table, email, projectId) == {};
    } else {
      var front, last := table[..|table| - 1], table[|table| - 1];
      assert table == front + [last];
      MatchCountSnoc(front, last, email, projectId);
      MatchCountIsMatchingRows(front, email, projectId);
      MatchPositionsSnoc(front, last, email, projectId);
      assert |front| !in MatchPositions(front, email, projectId);
    }
  }

  /** No two rows share an email and a project. */
  predicate NoDuplicates(table: seq<Entry>) {
    forall i, j :: 0 <= i < j < |table| ==>
      !(table[i].email == table[j].email && table[i].projectId == table[j].projectId)
  }

  /** In a table without duplicates the lookup selects at most one row, so
      `maybeSingle` never meets more than one. */
  lemma {:induction false} NoDuplicatesAtMostOne(table: seq<Entry>, email: string, projectId: string)
    requires NoDuplicates(table)
    ensures MatchCount(table, email, projectId) <= 1
  {
    if table != [] {
      var tail := table[1..];
      assert NoDuplicates(tail) by {
        forall i, j | 0 <= i < j < |tail| ensures
          !(tail[i].email == tail[j].email && tail[i].projectId == tail[j].projectId)
        {
          assert tail[i] == table[i + 1] && tail[j] == table[j + 1];
        }
      }
      NoDuplicatesAtMostOne(tail, email, projectId);
      if Matches(table[0], email, projectId) {
        forall i | 0 <= i < |tail| ensures !Matches(tail[i], email, projectId) {
          assert tail[i] == table[i + 1];
        }
        assert !Present(tail, email, projectId);
      }
    }
  }

  // ---------------------------------------------------------------------------
  // Joining
  // ---------------------------------------------------------------------------

  /** How a submission ends, named by the title of the toast it shows: "Missing
      Information", "Invalid Email", "Already Joined", "Success!" or "Error". */
  datatype Outcome =
    | MissingInformation
    | InvalidEmail
    | AlreadyJoined
    | Joined
    | Failed

  /** The dialog, the table and the outcome after one submission. */
  datatype Submitted = Submitted(modal: Modal, table: seq<Entry>, outcome: Outcome)

  /** The backend's answers to one submission: whether the lookup or the insert
      returns an error. */
  datatype Faults = Faults(lookupFails: bool, insertFails: bool)

  /** The row a successful submission inserts. */
  function NewEntry(m: Modal, projectId: string, projectName: string): (e: Entry)
    ensures e.projectId == projectId && e.projectName == projectName
    ensures e.name == Trim(m.name) && e.email == NormalEmail(m.email)
    ensures e.rating.Some? <==> m.rating > 0
    ensures e.rating.Some? ==> e.rating.value == m.rating
    ensures e.comment.None? <==> IsBlank(m.comment)
    ensures e.comment.Some? ==> e.comment.value == Trim(m.comment) && e.comment.value != []
  {
    Entry(projectId, projectName, Trim(m.name), NormalEmail(m.email),
          if m.rating > 0 then Some(m.rating) else None,
          TrimOrNull(m.comment))
  }

  /** Every text of a stored row is already normalised: trimming it again, or
      lower-casing the email again, changes nothing. */
  lemma NewEntryIsNormalised(m: Modal, projectId: string, projectName: string)
    ensures var e := NewEntry(m, projectId, projectName);
      && Trim(e.name) == e.name
      && Trim(e.email) == e.email && ToLower(e.email) == e.email
      && (e.comment.Some? ==> Trim(e.comment.value) == e.comment.value)
  {
    TrimIdempotent(m.name);
    TrimIdempotent(m.comment);
    NormalEmailIsNormal(m.email);
  }

  /** `handleSubmit`: a blank name or email stops first, then an email that is not
      valid once trimmed; then the lookup on (normalised email, project) decides
      between "already joined" and the insert. A lookup error, or more than one
      row for `maybeSingle`, ends in the error toast, as does an insert error. */
  function HandleSubmit(m: Modal, projectId: string, projectName: string, table: seq<Entry>,
                        isEmail: string -> bool, faults: Faults): (s: Submitted)
    ensures s.outcome == MissingInformation <==> IsBlank(m.name) || IsBlank(m.email)
    ensures s.outcome == InvalidEmail <==>
      !IsBlank(m.name) && !IsBlank(m.email) && !isEmail(Trim(m.email))
    ensures s.outcome == AlreadyJoined ==> Present(table, NormalEmail(m.email), projectId)
    ensures s.outcome == Joined ==>
      && !Present(table, NormalEmail(m.email), projectId)
      && s.table == table + [NewEntry(m, projectId, projectName)]
      && s.modal == m.(success := true)
    ensures s.outcome != Joined ==> s.table == table && s.modal == m
    ensures s.outcome == Joined ==> !faults.lookupFails && !faults.insertFails
    ensures s.outcome == AlreadyJoined ==>
      !faults.lookupFails && MatchCount(table, NormalEmail(m.email), projectId) == 1
    ensures !IsBlank(m.name) && !IsBlank(m.email) && isEmail(Trim(m.email)) ==>
      (s.outcome == Failed <==>
         || faults.lookupFails
         || MatchCount(table, NormalEmail(m.email), projectId) > 1
         || (MatchCount(table, NormalEmail(m.email), projectId) == 0 && faults.insertFails))
  {
    if IsBlank(m.name) || IsBlank(m.email) then Submitted(m, table, MissingInformation)
    else if !isEmail(Trim(m.email)) then Submitted(m, table, InvalidEmail)
    else
      var key := NormalEmail(m.email);
      var found := MatchCount(table, key, projectId);
      if faults.lookupFails || found > 1 then Submitted(m, table, Failed)
      else if found == 1 then Submitted(m, table, AlreadyJoined)
      else if faults.insertFails then Submitted(m, table, Failed)
      else Submitted(m.(success := true), table + [NewEntry(m, projectId, projectName)], Joined)
  }

  /** With a working backend, a valid submission is decided by the lookup alone. */
  lemma JoinedUnlessPresent(m: Modal, projectId: string, projectName: string, table: seq<Entry>, isEmail: string -> bool)
    requires NoDuplicates(table)
    requires !IsBlank(m.name) && !IsBlank(m.email) && isEmail(Trim(m.email))
    ensures var s := HandleSubmit(m, projectId, projectName, table, isEmail, Faults(false, false));
      && (s.outcome == Joined <==> !Present(table, NormalEmail(m.email), projectId))
      && (s.outcome == AlreadyJoined <==> Present(table, NormalEmail(m.email), projectId))
  {
    NoDuplicatesAtMostOne(table, NormalEmail(m.email), projectId);
  }

  /** A submission never introduces a duplicate: the insert happens only when the
      lookup found no row with the same key. */
  lemma HandleSubmitKeepsNoDuplicates(m: Modal, projectId: string, projectName: string, table: seq<Entry>,
                                      isEmail: string -> bool, faults: Faults)
    requires NoDuplicates(table)
    ensures NoDuplicates(HandleSubmit(m, projectId, projectName, table, isEmail, faults).table)
  {
    var s := HandleSubmit(m, projectId, projectName, table, isEmail, faults);
    if s.outcome == Joined {
      var e := NewEntry(m, projectId, projectName);
      forall i, j | 0 <= i < j < |s.table| ensures
        !(s.table[i].email == s.table[j].email && s.table[i].projectId == s.table[j].projectId)
      {
        if j == |table| {
          assert s.table[j] == e && s.table[i] == table[i];
          assert !Present(table, NormalEmail(m.email), projectId);
          assert !Matches(table[i], NormalEmail(m.email), projectId);
        } else {
          assert s.table[i] == table[i] && s.table[j] == table[j];
        }
      }
    }
  }

  /** The same submission made twice in a row, with a working backend, joins at
      most once: the second one finds the first one's row. */
  lemma SecondSubmissionAlreadyJoined(m: Modal, projectId: string, projectName: string, table: seq<Entry>,
                                      isEmail: string -> bool)
    requires NoDuplicates(table)
    requires HandleSubmit(m, projectId, projectName, table, isEmail, Faults(false, false)).outcome == Joined
    ensures var s := HandleSubmit(m, projectId, projectName, table, isEmail, Faults(false, false));
      HandleSubmit(m, projectId, projectName, s.table, isEmail, Faults(false, false)).outcome == AlreadyJoined
  {
    var key := NormalEmail(m.email);
    var s := HandleSubmit(m, projectId, projectName, table, isEmail, Faults(false, false));
    assert s.table == table + [NewEntry(m, projectId, projectName)];
    assert Present(s.table, key, projectId) by {
      assert Matches(s.table[|table|], key, projectId);
    }
    HandleSubmitKeepsNoDuplicates(m, projectId, projectName, table, isEmail, Faults(false, false));
    JoinedUnlessPresent(m, projectId, projectName, s.table, isEmail);
  }

  /** One use of the dialog: its contents, the page's project and the backend's answers. */
  datatype Attempt = Attempt(modal: Modal, projectId: string, projectName: string, faults: Faults)

  /** The table after a sequence of submissions, one after another. */
  function RunAll(attempts: seq<Attempt>, table: seq<Entry>, isEmail: string -> bool): seq<Entry>
    decreases |attempts|
  {
    if attempts == [] then table
    else
      var a := attempts[0];
      RunAll(attempts[1..], HandleSubmit(a.modal, a.projectId, a.projectName, table, isEmail, a.faults).table, isEmail)
  }

  /** In sequential use no two rows ever share an email and a project. */
  lemma {:induction false} RunAllKeepsNoDuplicates(attempts: seq<Attempt>, table: seq<Entry>, isEmail: string -> bool)
    requires NoDuplicates(table)
    ensures NoDuplicates(RunAll(attempts, table, isEmail))
    decreases |attempts|
  {
    if attempts != [] {
      var a := attempts[0];
      HandleSubmitKeepsNoDuplicates(a.modal, a.projectId, a.projectName, table, isEmail, a.faults);
      RunAllKeepsNoDuplicates(attempts[1..], HandleSubmit(a.modal, a.projectId, a.projectName, table, isEmail, a.faults).table, isEmail);
    }
  }

  /** The delayed reset after a success: the success view closes and the inputs
      and the rating clear. */
  function AfterSuccessDelay(m: Modal): (r: Modal)
    ensures r.name == "" && r.email == "" && r.comment == "" && r.rating == 0 && !r.success
    ensures r.hovered == m.hovered && r.submitting == m.submitting
    ensures RatingsInRange(m) ==> RatingsInRange(r)
    ensures m.hovered == 0 && !m.submitting ==> r == InitialModal()
  {
    m.(name := "", email := "", comment := "", rating := 0, success := false)
  }
}
