/** documents/permissions.py: `IsOwner.has_object_permission`. */
module Permissions {
  import opened Wrappers
  import opened Models

  /** What the check reads of an object: its `owner` (`None` when the
      attribute is missing or null) and, when the object has a `document`
      attribute, that document's owner. */
  datatype Obj = Obj(owner: Option<UserId>, document: Option<Option<UserId>>)

  /** An extraction job has no owner of its own, only a document. */
  function JobObj(doc: Document): Obj {
    Obj(None, Some(Some(doc.owner)))
  }

  /** The owner the check compares with the user: the object's own, and
      failing that its document's. */
  function EffectiveOwner(obj: Obj): (o: Option<UserId>)
    ensures obj.owner.Some? ==> o == obj.owner
    ensures obj.owner.None? && obj.document.Some? ==> o == obj.document.value
    ensures obj.owner.None? && obj.document.None? ==> o.None?
  {
    if obj.owner.None? && obj.document.Some? then obj.document.value else obj.owner
  }

  /** `has_object_permission(request, view, obj)` for a request by `user`
      with HTTP method `httpMethod`. The object's own owner decides when it has
      one; otherwise its document's owner does; an object with neither is
      refused. The method plays no part. */
  function HasObjectPermission(httpMethod: string, user: UserId, obj: Obj): (allowed: bool)
    ensures obj.owner.Some? ==> (allowed <==> obj.owner.value == user)
    ensures obj.owner.None? && obj.document.Some? ==> (allowed <==> obj.document.value == Some(user))
    ensures obj.owner.None? && obj.document.None? ==> !allowed
  {
    EffectiveOwner(obj) == Some(user)
  }

  /** Safe and unsafe methods are treated alike. */
  lemma MethodIsIgnored(m1: string, m2: string, user: UserId, obj: Obj)
    ensures HasObjectPermission(m1, user, obj) == HasObjectPermission(m2, user, obj)
  {
  }

  /** An object's own owner wins over a disagreeing document owner. */
  lemma OwnerTakesPrecedence(httpMethod: string, user: UserId, owner: UserId, docOwner: UserId)
    requires owner != docOwner
    ensures HasObjectPermission(httpMethod, user, Obj(Some(owner), Some(Some(docOwner)))) <==> user == owner
  {
  }

  /** Were the check applied to a job, the job would be open exactly to the
      owner of its document. The job views do not apply it: they list only
      jobs whose document the user owns (`Views.Vault.JobsVisibleTo`). */
  lemma JobFollowsDocument(httpMethod: string, user: UserId, doc: Document)
    ensures HasObjectPermission(httpMethod, user, JobObj(doc)) <==> doc.owner == user
  {
  }

  /** No object is open to two different users. */
  lemma OwnershipIsExclusive(httpMethod: string, a: UserId, b: UserId, obj: Obj)
    requires a != b
    ensures !(HasObjectPermission(httpMethod, a, obj) && HasObjectPermission(httpMethod, b, obj))
  {
  }
}
