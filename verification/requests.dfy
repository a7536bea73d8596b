/**
 * What the client sends and what it shows. Each user action becomes the
 * list of requests it would issue, and each reply becomes the notification
 * it would pop up; the network itself is an input (`Outcome`).
 */
module Requests {
  import opened Js
  import opened BucketName

  datatype Transfer = Copy | Move

  /** One request to the backend; a bucket sent as `currentBucket` may be `null`. */
  datatype Request =
    | ListBuckets
    | ListObjects(bucket: string, prefix: string)
    | CreateBucket(name: string)
    | DeleteBucket(name: string)
    | CreateFolder(folderBucket: Option<string>, folder: string)
    | DeleteFolder(folderBucket: Option<string>, folder: string)
    | DeleteFile(fileBucket: Option<string>, key: string)
    | TransferObject(op: Transfer, srcBucket: Option<string>, srcKey: string, destBucket: string, destKey: string)
    | Upload(uploadBucket: string, uploadKey: string)

  /** The JSON body of a reply: `message` on success, `error` otherwise (either may be absent). */
  datatype Reply = Reply(message: Option<string>, error: Option<string>)

  /** A reply, or a request/parse failure that lands in the promise's rejection. */
  datatype Outcome = Answered(reply: Reply) | NetworkError

  /** A popup: its text and whether it is styled as a success. */
  datatype Notice = Notice(text: string, success: bool)

  /** What a dialog's button does: send a request, show a notice, or nothing at all. */
  datatype Step = Send(request: Request) | Show(notice: Notice) | Cancel

  /** The client treats a reply as a success exactly when its `message` is truthy. */
  predicate Succeeded(o: Outcome) {
    o.Answered? && Truthy(o.reply.message)
  }

  // ---------------------------------------------------------------------------
  // Creating and deleting buckets

  /** The "Create" button: validation failures become a notice, a valid name a create request. */
  function CreateBucketAction(input: string): Step {
    match Validate(input)
    case Rejected(check) => Show(Notice(Message(check), false))
    case Accepted(name) => Send(CreateBucket(name))
  }

  /**
   * A create request is sent exactly for the names validation accepts, and
   * it carries the trimmed name, which is 3 to 63 characters of `[a-z0-9-]`
   * with alphanumeric ends. Otherwise the first failing check's text is shown.
   */
  lemma CreateRequestOnlyWhenValid(input: string)
    ensures var name := Trim(input);
      CreateBucketAction(input).Send? <==>
        && MinLength <= |name| <= MaxLength
        && (forall i :: 0 <= i < |name| ==> IsNameChar(name[i]))
        && IsLowerAlnum(name[0]) && IsLowerAlnum(name[|name| - 1])
    ensures CreateBucketAction(input).Send? ==> CreateBucketAction(input).request == CreateBucket(Trim(input))
    ensures !CreateBucketAction(input).Send? ==>
      exists c: Check :: Fails(c, Trim(input)) && CreateBucketAction(input) == Show(Notice(Message(c), false))
  {
    AcceptsExactly(Trim(input));
    FirstFailureWins(input);
  }

  /** The bucket-delete dialog's network-failure text. */
  const NetworkErrorText := "Network error occurred"
  /** The bucket-create dialog's network-failure text. */
  const ServerHintText := "Network error occurred. Please check if the server is running."

  /**
   * The create reply: a success shows the message and reloads the bucket
   * list; a failure shows the reworded error; a network error shows a hint.
   */
  function CreateBucketSettled(o: Outcome): (r: (seq<Request>, Notice))
    ensures r.1.success <==> Succeeded(o)
    ensures r.0 != [] <==> Succeeded(o)
    ensures r.1.text != []
    ensures Succeeded(o) ==> r.0 == [ListBuckets] && r.1.text == o.reply.message.value
    ensures o.Answered? && !Succeeded(o) ==> r.1.text == CreateErrorText(o.reply.error)
    ensures o.NetworkError? ==> r.1.text == ServerHintText
  {
    match o
    case NetworkError => ([], Notice(ServerHintText, false))
    case Answered(reply) =>
      if Truthy(reply.message) then ([ListBuckets], Notice(reply.message.value, true))
      else (CreateErrorCases(reply.error); ([], Notice(CreateErrorText(reply.error), false)))
  }

  /**
   * The "Delete" button of the bucket dialog: an empty trimmed name is
   * refused with a notice, an unconfirmed prompt does nothing, otherwise the
   * trimmed name is sent.
   */
  function DeleteBucketAction(input: string, confirmed: bool): Step {
    var name := Trim(input);
    if name == [] then Show(Notice(Message(Required), false))
    else if !confirmed then Cancel
    else Send(DeleteBucket(name))
  }

  /** A delete request is sent only when confirmed and never for a blank name, and it carries the trimmed name. */
  lemma DeleteBucketNeedsNameAndConfirmation(input: string, confirmed: bool)
    ensures DeleteBucketAction(input, confirmed).Send? <==> confirmed && Trim(input) != []
    ensures DeleteBucketAction(input, confirmed).Send? ==>
      DeleteBucketAction(input, confirmed).request == DeleteBucket(Trim(input))
    ensures DeleteBucketAction(Trim(input), confirmed) == DeleteBucketAction(input, confirmed)
  {
    TrimIdempotent(input);
  }

  // ---------------------------------------------------------------------------
  // Per-item requests

  /** The requests issued once per item or file, whose replies are settled one by one. */
  predicate IsItemRequest(r: Request) {
    r.CreateFolder? || r.DeleteFolder? || r.DeleteFile? || r.TransferObject? || r.Upload?
  }

  /** The text shown when a failed reply carries no `error`. */
  function Fallback(r: Request): (text: string)
    requires IsItemRequest(r)
    ensures text != []
  {
    match r
    case CreateFolder(_, _) => "Create failed"
    case DeleteFolder(_, _) => "Delete failed"
    case DeleteFile(_, _) => "Delete failed"
    case TransferObject(op, _, _, _, _) => if op == Copy then "Copy failed" else "Move failed"
    case Upload(_, _) => "Upload failed"
  }

  /**
   * The notice for one item request's reply: the message as a success, or
   * `error || fallback` as a failure. These promise chains have no `catch`,
   * so a network error shows nothing.
   */
  function Settle(r: Request, o: Outcome): (n: Option<Notice>)
    requires IsItemRequest(r)
    ensures n.None? <==> o.NetworkError?
    ensures n.Some? ==> n.value.text != [] && (n.value.success <==> Succeeded(o))
    ensures n.Some? && n.value.success ==> n.value.text == o.reply.message.value
    ensures n.Some? && !n.value.success && Truthy(o.reply.error) ==> n.value.text == o.reply.error.value
    ensures n.Some? && !n.value.success && !Truthy(o.reply.error) ==> n.value.text == Fallback(r)
  {
    match o
    case NetworkError => None
    case Answered(reply) =>
      if Truthy(reply.message) then Some(Notice(reply.message.value, true))
      else Some(Notice(OrElse(reply.error, Fallback(r)), false))
  }

  /** The notices a batch of item requests produces, listed in request order (the order replies arrive in is not modelled). */
  function BatchNotices(reqs: seq<Request>, outcomes: seq<Outcome>): seq<Notice>
    requires |reqs| == |outcomes|
    requires forall i :: 0 <= i < |reqs| ==> IsItemRequest(reqs[i])
    decreases |reqs|
  {
    if reqs == [] then []
    else
      var rest := BatchNotices(reqs[1..], outcomes[1..]);
      match Settle(reqs[0], outcomes[0])
      case None => rest
      case Some(n) => [n] + rest
  }

  function SucceededCount(outcomes: seq<Outcome>): nat
    decreases |outcomes|
  {
    if outcomes == [] then 0 else (if Succeeded(outcomes[0]) then 1 else 0) + SucceededCount(outcomes[1..])
  }

  function AnsweredCount(outcomes: seq<Outcome>): nat
    decreases |outcomes|
  {
    if outcomes == [] then 0 else (if outcomes[0].Answered? then 1 else 0) + AnsweredCount(outcomes[1..])
  }

  function SuccessNotices(ns: seq<Notice>): nat
    decreases |ns|
  {
    if ns == [] then 0 else (if ns[0].success then 1 else 0) + SuccessNotices(ns[1..])
  }

  /**
   * Fire-and-forget batches: every answered request produces exactly one
   * notice and every lost one none, and the success notices are exactly the
   * successful replies.
   */
  lemma {:induction false} BatchNoticeCounts(reqs: seq<Request>, outcomes: seq<Outcome>)
    requires |reqs| == |outcomes|
    requires forall i :: 0 <= i < |reqs| ==> IsItemRequest(reqs[i])
    ensures |BatchNotices(reqs, outcomes)| == AnsweredCount(outcomes)
    ensures SuccessNotices(BatchNotices(reqs, outcomes)) == SucceededCount(outcomes)
    decreases |reqs|
  {
    if reqs != [] {
      BatchNoticeCounts(reqs[1..], outcomes[1..]);
      var rest := BatchNotices(reqs[1..], outcomes[1..]);
      match Settle(reqs[0], outcomes[0])
      case None =>
      case Some(n) =>
        assert ([n] + rest)[1..] == rest;
    }
  }
}
