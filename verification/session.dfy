/**
 * The backend's life cycle as a sequence of requests against the single
 * process-wide conversation slot (backend/api.py): builds replace the
 * conversation, questions use it, comparisons leave it alone.
 */
module SessionMachine {
  import opened Wrappers
  import opened Api

  /** A request to one of the stateful endpoints. */
  datatype Request =
    | ProcessRequest(llmChoice: string, pdfFiles: seq<string>)
    | AskRequest(question: string, askChoice: string)
    | CompareRequest(compareChoice: string, compareFiles: seq<string>)

  /** The reply to a request; a comparison also reports the prompts it sent. */
  datatype Reply =
    | ProcessReplied(processReply: ProcessReply)
    | AskReplied(askReply: AskReply)
    | CompareReplied(compareReply: CompareReply, prompts: seq<string>)

  /** The slot as the process starts: no conversation. */
  function Initial<C>(): Session<C> {
    Session(None)
  }

  /** Serve one request. */
  function Step<V, C>(s: Session<C>, req: Request, env: Env<V, C>): (Reply, Session<C>) {
    match req
    case ProcessRequest(choice, files) =>
      var (reply, next) := ProcessPdfs(s, choice, files, env);
      (ProcessReplied(reply), next)
    case AskRequest(question, choice) =>
      var (reply, next) := AskQuestion(s, question, choice, env.chain);
      (AskReplied(reply), next)
    case CompareRequest(choice, files) =>
      var (reply, prompts) := CompareReports(choice, files, env);
      (CompareReplied(reply, prompts), s)
  }

  /** Serve the requests one after another; one reply per request, in order. */
  function Run<V, C>(s: Session<C>, reqs: seq<Request>, env: Env<V, C>): (out: (seq<Reply>, Session<C>))
    ensures |out.0| == |reqs|
    ensures forall i :: 0 <= i < |reqs| ==>
      && (reqs[i].ProcessRequest? <==> out.0[i].ProcessReplied?)
      && (reqs[i].AskRequest? <==> out.0[i].AskReplied?)
    decreases |reqs|
  {
    if |reqs| == 0 then ([], s)
    else
      var (before, mid) := Run(s, reqs[..|reqs| - 1], env);
      var (reply, next) := Step(mid, reqs[|reqs| - 1], env);
      (before + [reply], next)
  }

  /** A successful build. */
  predicate IsBuilt(r: Reply) {
    r.ProcessReplied? && r.processReply.Processed?
  }

  /** Some reply among the first `n` is a successful build. */
  ghost predicate BuiltWithin(replies: seq<Reply>, n: nat)
    requires n <= |replies|
  {
    exists j :: 0 <= j < n && IsBuilt(replies[j])
  }

  /** One request sets the slot exactly when it was already set or the
      request is a successful build. */
  lemma StepSetsOnlyByBuilding<V, C>(s: Session<C>, req: Request, env: Env<V, C>)
    ensures Step(s, req, env).1.conversation.Some? <==> s.conversation.Some? || IsBuilt(Step(s, req, env).0)
  {
  }

  /** A question is answered with the not-ready error exactly when the slot
      is empty. */
  lemma StepAskNotReadyIffEmpty<V, C>(s: Session<C>, req: Request, env: Env<V, C>)
    requires req.AskRequest?
    ensures Step(s, req, env).0.AskReplied?
    ensures Step(s, req, env).0.askReply.NotReady? <==> s.conversation.None?
  {
  }

  /** Starting from the empty slot, a conversation is set exactly when some
      build has succeeded: failed builds, questions and comparisons never set
      it, and nothing ever clears it. */
  lemma {:induction false} ConversationSetIffBuilt<V, C>(reqs: seq<Request>, env: Env<V, C>)
    ensures Run(Initial<C>(), reqs, env).1.conversation.Some? <==> BuiltWithin(Run(Initial<C>(), reqs, env).0, |reqs|)
    decreases |reqs|
  {
    if |reqs| > 0 {
      var n := |reqs| - 1;
      var (before, mid) := Run(Initial<C>(), reqs[..n], env);
      ConversationSetIffBuilt(reqs[..n], env);
      var (reply, next) := Step(mid, reqs[n], env);
      StepSetsOnlyByBuilding(mid, reqs[n], env);
      var replies := before + [reply];
      assert Run(Initial<C>(), reqs, env) == (replies, next);
      BuiltWithinExtends(before, reply);
    }
  }

  /** Appending a reply adds at most that reply as a new build. */
  lemma BuiltWithinExtends(before: seq<Reply>, reply: Reply)
    ensures BuiltWithin(before + [reply], |before| + 1) <==> BuiltWithin(before, |before|) || IsBuilt(reply)
    ensures forall i :: 0 <= i <= |before| ==> (BuiltWithin(before + [reply], i) <==> BuiltWithin(before, i))
  {
    var replies := before + [reply];
    assert forall j :: 0 <= j < |before| ==> replies[j] == before[j];
    assert replies[|before|] == reply;
  }

  /** Starting from the empty slot, a question is refused with the not-ready
      error exactly when no earlier request built a conversation. */
  lemma {:induction false} AskNotReadyIffNoEarlierBuild<V, C>(reqs: seq<Request>, env: Env<V, C>, i: nat)
    requires i < |reqs| && reqs[i].AskRequest?
    ensures Run(Initial<C>(), reqs, env).0[i].AskReplied?
    ensures Run(Initial<C>(), reqs, env).0[i].askReply.NotReady? <==> !BuiltWithin(Run(Initial<C>(), reqs, env).0, i)
    decreases |reqs|
  {
    var n := |reqs| - 1;
    var (before, mid) := Run(Initial<C>(), reqs[..n], env);
    var (reply, next) := Step(mid, reqs[n], env);
    var replies := before + [reply];
    assert Run(Initial<C>(), reqs, env) == (replies, next);
    BuiltWithinExtends(before, reply);
    if i < n {
      assert reqs[..n][i] == reqs[i];
      AskNotReadyIffNoEarlierBuild(reqs[..n], env, i);
      assert replies[i] == before[i];
    } else {
      ConversationSetIffBuilt(reqs[..n], env);
      StepAskNotReadyIffEmpty(mid, reqs[n], env);
    }
  }
}
