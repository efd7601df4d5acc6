/**
 * The editorial workflow across the two tiers: the status menu of the admin editor offers moves by
 * its own tables, the server judges the resulting update by its ownership and sub-editor rules,
 * and the editor's local status follows the server's answer. The two rule sets differ.
 */
module Workflow {
  import opened Wrappers
  import opened Domain
  import opened ArticleModel
  import opened Storage
  import opened StatusChanger
  import opened ArticleController
  import opened EditorPage

  /**
   * Choosing status `t` in the editor's menu: an unsaved article changes locally and nothing is
   * sent; a saved one sends a status-only update for article `id` and follows the server's answer.
   */
  function MenuChange(f: EditorForm, s: Store, id: ArticleId, caller: Caller, t: Status): (r: (EditorForm, Store))
    ensures f.id.None? ==> r.1 == s && r.0.status == t
    ensures f.id.Some? && UpdateArticle(s, id, caller, StatusPatch(t)).Err? ==> r == (f, s)
    ensures f.id.Some? && UpdateArticle(s, id, caller, StatusPatch(t)).Ok? ==>
      r.0.status == t && id in r.1.articles && r.1.articles[id].status == t
  {
    if f.id.None? then (StatusChange(f, t, false), s)
    else
      var answer := UpdateArticle(s, id, caller, StatusPatch(t));
      UpdateStatusPatch(s, id, caller, t);
      (StatusChange(f, t, answer.Ok?), if answer.Ok? then answer.value else s)
  }

  /** A status-only update that succeeds sets that status. */
  lemma UpdateStatusPatch(s: Store, id: ArticleId, caller: Caller, t: Status)
    ensures UpdateArticle(s, id, caller, StatusPatch(t)).Ok? ==>
      id in UpdateArticle(s, id, caller, StatusPatch(t)).value.articles
      && UpdateArticle(s, id, caller, StatusPatch(t)).value.articles[id].status == t
  {
  }

  /**
   * A sub-editor reviewing their own article is offered EDITOR_APPROVED, the server refuses it as
   * FORBIDDEN, and the editor keeps showing the old status.
   */
  lemma SubEditorOfferedApprovalRejected(f: EditorForm, s: Store, id: ArticleId, caller: Caller)
    requires caller.role == SubEditor && id in s.articles && s.articles[id].author == caller.userId
    requires s.articles[id].status == SubEditorReview && f.id.Some?
    ensures EditorApproved in Offered(SubEditorReview, Some(SubEditor))
    ensures UpdateArticle(s, id, caller, StatusPatch(EditorApproved)) == Err(Forbidden)
    ensures MenuChange(f, s, id, caller, EditorApproved) == (f, s)
  {
    assert Offered(SubEditorReview, Some(SubEditor)) == [Draft, EditorApproved] by {
      OfferedFromReview(SubEditor);
    }
  }

  /** From every status but DRAFT, a sub-editor's menu offers some move the server refuses. */
  lemma SubEditorMenuOffersRefusedMove(s: Store, id: ArticleId, caller: Caller)
    requires caller.role == SubEditor && id in s.articles && s.articles[id].status != Draft
    ensures Draft in Offered(s.articles[id].status, Some(SubEditor))
    ensures UpdateArticle(s, id, caller, StatusPatch(Draft)) == Err(Forbidden)
  {
    OfferedNonEmpty(s.articles[id].status, SubEditor);
  }

  /**
   * A reporter is never offered PUBLISHED, yet the server publishes the reporter's own article
   * when asked directly.
   */
  lemma ReporterPublishesPastTheMenu(s: Store, id: ArticleId, caller: Caller, current: Status)
    requires id in s.articles && s.articles[id].author == caller.userId && caller.role == Reporter
    ensures Published !in Offered(current, Some(Reporter))
    ensures UpdateArticle(s, id, caller, StatusPatch(Published)).Ok?
    ensures UpdateArticle(s, id, caller, StatusPatch(Published)).value.articles[id].status == Published
  {
    PrivilegedTargets(current, Reporter);
    ReporterAuthorMayPublish(s, id, caller);
  }

  /** For editors and administrators the two tiers agree: every move the menu offers, the server makes. */
  lemma EditorMovesAccepted(f: EditorForm, s: Store, id: ArticleId, caller: Caller, t: Status)
    requires IsEditor(caller.role) && id in s.articles && f.id.Some?
    requires t in Offered(s.articles[id].status, Some(caller.role))
    ensures UpdateArticle(s, id, caller, StatusPatch(t)).Ok?
    ensures MenuChange(f, s, id, caller, t).0.status == t
  {
  }
}
