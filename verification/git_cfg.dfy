/** `GitCfg`: where and how a release is committed, tagged and pushed, and the
    check that a commit message names the version. */
module GitConfig {
  import opened Wrappers
  import opened Text
  import ChangelogModel

  const COMMIT_MESSAGE_VERSION: string := "{{version}}"
  const TAG_MESSAGE_CHANGES: string := "{{changes}}"

  /** `GitCfg`: a null tag message asks for a lightweight tag. */
  datatype GitCfg = GitCfg(
    tagPrefix: string,
    commitMessage: string,
    tagMessage: Option<string>,
    remote: string,
    branch: string,
    sshStrictHostKeyChecking: string)

  /** `new GitCfg()`. */
  function DefaultGitCfg(): (cfg: GitCfg)
    ensures cfg.tagPrefix == "release/" && cfg.remote == "origin" && cfg.branch == "main"
    ensures cfg.sshStrictHostKeyChecking == "yes"
    ensures !UseAnnotatedTag(cfg)
    ensures cfg.commitMessage == "Published release/" + COMMIT_MESSAGE_VERSION
    ensures ValidateCommitMessage(cfg.commitMessage) == Success(cfg.commitMessage)
  {
    var msg := "Published release/" + COMMIT_MESSAGE_VERSION;
    assert OccursAt(msg, COMMIT_MESSAGE_VERSION, 18);
    ContainsIffOccurs(msg, COMMIT_MESSAGE_VERSION);
    GitCfg("release/", msg, None, "origin", "main", "yes")
  }

  /** `GitCfg.validateCommitMessage`: the message must mention "{{version}}". */
  function ValidateCommitMessage(commitMessage: string): (r: Result<string>)
    ensures r.Success? <==> Contains(commitMessage, COMMIT_MESSAGE_VERSION)
    ensures r.Success? ==> r.value == commitMessage
    ensures r.Failure? ==> r.error == ILLEGAL_ARGUMENT
  {
    ChangelogModel.RequirePlaceholder(commitMessage, COMMIT_MESSAGE_VERSION)
  }

  /** `tagMessage(message)`. */
  function SetTagMessage(cfg: GitCfg, tagMessage: Option<string>): (r: GitCfg)
    ensures TagMessage(r) == tagMessage
    ensures r.(tagMessage := cfg.tagMessage) == cfg
  {
    cfg.(tagMessage := tagMessage)
  }

  /** `tagMessage()`. */
  function TagMessage(cfg: GitCfg): Option<string> {
    cfg.tagMessage
  }

  /** `useAnnotatedTag()`: a tag is annotated exactly when there is a message. */
  predicate UseAnnotatedTag(cfg: GitCfg) {
    cfg.tagMessage.Some?
  }

  /** Setting a message reads back, and decides between an annotated and a
      lightweight tag. */
  lemma TagMessageRoundTrip(cfg: GitCfg, tagMessage: Option<string>)
    ensures TagMessage(SetTagMessage(cfg, tagMessage)) == tagMessage
    ensures UseAnnotatedTag(SetTagMessage(cfg, tagMessage)) <==> tagMessage.Some?
    ensures SetTagMessage(SetTagMessage(cfg, tagMessage), cfg.tagMessage) == cfg
  {
  }

  /** "{{version}}" holds "{version}", so a message that `GitCfg` accepts also
      passes the older `PushCfg` check. */
  lemma GitMessagePassesPush(commitMessage: string)
    requires ValidateCommitMessage(commitMessage).Success?
    ensures ChangelogModel.ValidateCommitMessage(commitMessage) == Success(commitMessage)
  {
    ContainsIffOccurs(commitMessage, COMMIT_MESSAGE_VERSION);
    var i :| 0 <= i <= |commitMessage| && OccursAt(commitMessage, COMMIT_MESSAGE_VERSION, i);
    InnerPlaceholder(commitMessage, i);
    ContainsIffOccurs(commitMessage, ChangelogModel.COMMIT_MESSAGE_VERSION);
  }

  /** Wherever "{{version}}" occurs, "{version}" occurs one character later. */
  lemma InnerPlaceholder(s: string, i: nat)
    requires OccursAt(s, COMMIT_MESSAGE_VERSION, i)
    ensures OccursAt(s, ChangelogModel.COMMIT_MESSAGE_VERSION, i + 1)
  {
    forall j | 0 <= j < 9 ensures s[i + 1..][j] == ChangelogModel.COMMIT_MESSAGE_VERSION[j] {
      assert s[i + 1..][j] == s[i..][j + 1];
    }
  }

  /** The converse fails: the older placeholder alone is not enough for `GitCfg`. */
  lemma PushMessageNotGit()
    ensures ChangelogModel.ValidateCommitMessage("{version}").Success?
    ensures ValidateCommitMessage("{version}").Failure?
  {
    assert OccursAt("{version}", ChangelogModel.COMMIT_MESSAGE_VERSION, 0);
    ContainsIffOccurs("{version}", ChangelogModel.COMMIT_MESSAGE_VERSION);
    ContainsIffOccurs("{version}", COMMIT_MESSAGE_VERSION);
  }
}
