/**
 * The editorial workflow as the admin interface presents it: the successor table of each status,
 * the roles allowed to set each target status, and the list of moves the status drop-down offers.
 * The back end does not consult either table.
 */
module StatusChanger {
  import opened Wrappers
  import opened Seqs
  import opened Domain

  /** `statusFlow`: the statuses the drop-down may move to from `s`, in table order. */
  function Flow(s: Status): seq<Status> {
    match s
    case Draft => [SubEditorReview]
    case SubEditorReview => [Draft, EditorApproved]
    case EditorApproved => [Draft, Published]
    case Published => [Archived, Draft]
    case Archived => [Draft]
  }

  /** `statusPermissions`: the roles allowed to set target status `t`. */
  function Permitted(t: Status): seq<Role> {
    match t
    case Draft => [Reporter, SubEditor, Editor, Admin]
    case SubEditorReview => [Reporter, SubEditor, Editor, Admin]
    case EditorApproved => [SubEditor, Editor, Admin]
    case Published => [Editor, Admin]
    case Archived => [Editor, Admin]
  }

  /** `t` is a successor of `s` in the workflow graph. */
  predicate Edge(s: Status, t: Status) {
    t in Flow(s)
  }

  /**
   * `availableStatuses`: nothing without a logged-in user; otherwise the successors of `current`
   * whose permitted-role list contains the user's role, in table order.
   */
  function Offered(current: Status, user: Option<Role>): (r: seq<Status>)
    ensures user.None? ==> r == []
    ensures user.Some? ==> forall t :: t in r <==> Edge(current, t) && user.value in Permitted(t)
    ensures IsSubsequence(r, Flow(current))
  {
    match user
    case None => []
    case Some(role) => FilterIsSubsequence(MaySet(role), Flow(current)); Filter(MaySet(role), Flow(current))
  }

  /** The test the drop-down applies to each successor: may `role` set it? */
  function MaySet(role: Role): Status -> bool {
    (t: Status) => role in Permitted(t)
  }

  /** Clicking item `index` of the drop-down calls `onChange` with exactly that status. */
  function Choose(current: Status, user: Option<Role>, index: nat): (r: Option<Status>)
    ensures r.Some? <==> index < |Offered(current, user)|
    ensures r.Some? ==> user.Some? && Edge(current, r.value) && user.value in Permitted(r.value)
  {
    var items := Offered(current, user);
    if index < |items| then Some(items[index]) else None
  }

  /** The successor table has no self-loops, and a draft can only be sent for review. */
  lemma NoSelfLoops(s: Status)
    ensures !Edge(s, s)
    ensures Flow(Draft) == [SubEditorReview] && !Edge(Draft, Published)
  {
  }

  /** Only editors and admins are offered PUBLISHED or ARCHIVED; a reporter is never offered EDITOR_APPROVED. */
  lemma PrivilegedTargets(current: Status, role: Role)
    ensures Published in Offered(current, Some(role)) ==> role == Editor || role == Admin
    ensures Archived in Offered(current, Some(role)) ==> role == Editor || role == Admin
    ensures role == Reporter ==> EditorApproved !in Offered(current, Some(role))
  {
  }

  /**
   * Every status but DRAFT leads back to DRAFT and every role may set DRAFT and SUB_EDITOR_REVIEW, so a
   * logged-in user is always offered at least one move: the component's "nothing to offer" exit is
   * never taken.
   */
  lemma OfferedNonEmpty(current: Status, role: Role)
    ensures |Offered(current, Some(role))| >= 1
  {
    var t := if current == Draft then SubEditorReview else Draft;
    assert Edge(current, t) && role in Permitted(t);
    assert t in Offered(current, Some(role));
  }

  /** Filtering a two-element list, spelled out. */
  lemma FilterPair(p: Status -> bool, a: Status, b: Status)
    ensures Filter(p, [a, b]) == (if p(a) then [a] else []) + (if p(b) then [b] else [])
  {
    assert [a, b][1..] == [b];
    assert [b][1..] == [];
  }

  /** The drop-down written out for every (status, role) pair, independently of the two tables. */
  function ExpectedOffer(s: Status, r: Role): seq<Status> {
    var privileged := r == Editor || r == Admin;
    match s
    case Draft => [SubEditorReview]
    case SubEditorReview => if r == Reporter then [Draft] else [Draft, EditorApproved]
    case EditorApproved => if privileged then [Draft, Published] else [Draft]
    case Published => if privileged then [Archived, Draft] else [Draft]
    case Archived => [Draft]
  }

  /** The filtered successor table agrees with the written-out drop-down on all twenty pairs. */
  lemma OfferedMatchesTable(s: Status, r: Role)
    ensures Offered(s, Some(r)) == ExpectedOffer(s, r)
  {
    if s == Draft || s == Archived {
      assert [Draft][1..] == [] && [SubEditorReview][1..] == [];
    } else if s == SubEditorReview {
      OfferedFromReview(r);
    } else if s == EditorApproved {
      OfferedFromApproved(r);
    } else {
      OfferedFromPublished(r);
    }
  }

  lemma OfferedFromReview(r: Role)
    ensures Offered(SubEditorReview, Some(r)) == ExpectedOffer(SubEditorReview, r)
  {
    FilterPair(MaySet(r), Draft, EditorApproved);
  }

  lemma OfferedFromApproved(r: Role)
    ensures Offered(EditorApproved, Some(r)) == ExpectedOffer(EditorApproved, r)
  {
    FilterPair(MaySet(r), Draft, Published);
  }

  lemma OfferedFromPublished(r: Role)
    ensures Offered(Published, Some(r)) == ExpectedOffer(Published, r)
  {
    FilterPair(MaySet(r), Archived, Draft);
  }

  /** A walk through the workflow graph: each status is a successor of the one before. */
  predicate IsPath(p: seq<Status>) {
    forall i :: 0 <= i < |p| - 1 ==> Edge(p[i], p[i + 1])
  }

  /** The only way into PUBLISHED is from EDITOR_APPROVED, and the only way into that is from review. */
  lemma Predecessors(s: Status)
    ensures Edge(s, Published) <==> s == EditorApproved
    ensures Edge(s, EditorApproved) <==> s == SubEditorReview
  {
  }

  /**
   * Every walk from DRAFT to PUBLISHED passes SUB_EDITOR_REVIEW and then EDITOR_APPROVED right before
   * publication, so it takes at least three moves.
   */
  lemma DraftToPublishedReviewed(p: seq<Status>)
    requires IsPath(p) && |p| >= 1 && p[0] == Draft && p[|p| - 1] == Published
    ensures |p| >= 4
    ensures p[|p| - 3] == SubEditorReview && p[|p| - 2] == EditorApproved
    ensures exists i, j :: 0 <= i < j < |p| - 1 && p[i] == SubEditorReview && p[j] == EditorApproved
  {
    var n := |p|;
    assert Edge(p[n - 2], p[n - 1]);
    Predecessors(p[n - 2]);
    assert p[n - 2] == EditorApproved;
    assert Edge(p[n - 3], p[n - 2]);
    Predecessors(p[n - 3]);
    assert p[n - 3] == SubEditorReview;
  }
}
