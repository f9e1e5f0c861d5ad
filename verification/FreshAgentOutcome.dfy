/** What the content migration writes, field by field, told by the fields of the input. */
module FreshAgentOutcome {
  import opened Basics
  import opened SessionContract
  import opened FreshAgent

  predicate IsChat(input: Record) {
    Read(input, "kind") == Str("agent-chat")
  }

  predicate IsFresh(input: Record) {
    Read(input, "kind") == Str("fresh-agent")
  }

  /** The provider that runs each session type. */
  function RuntimeOf(sessionType: string): Option<string> {
    if sessionType == "freshclaude" || sessionType == "kilroy" then Some("claude")
    else if sessionType == "freshcodex" then Some("codex")
    else if sessionType == "freshopencode" then Some("opencode")
    else None
  }

  /** The field names a session type. */
  predicate NamesType(input: Record, key: string) {
    Read(input, key).Str? && RuntimeOf(Read(input, key).s).Some?
  }

  lemma TypesAreKnown(v: Value)
    ensures NormalizeSessionType(v).Some? <==> v.Str? && RuntimeOf(v.s).Some?
    ensures NormalizeSessionType(v).Some? ==>
      NormalizeSessionType(v).value == v.s && ResolveRuntimeProvider(Some(v.s)) == RuntimeOf(v.s)
  {
  }

  /** A legacy chat is always rewritten, content of the new kind exactly when its type or its provider
      names a session type, and nothing else is. */
  lemma RewrittenExactly(input: Record)
    ensures Rewritten(input) <==>
      IsChat(input) || (IsFresh(input) && (NamesType(input, "sessionType") || NamesType(input, "provider")))
    ensures !Rewritten(input) ==> MigrateContent(input) == input
  {
    TypesAreKnown(Read(input, "sessionType"));
    TypesAreKnown(Read(input, "provider"));
  }

  /** The session type that is written: the one the content names, first by its type and then by its
      provider; for a legacy chat the one its provider names, or else `freshclaude`. */
  function TypeOf(input: Record): Value {
    if IsFresh(input) && NamesType(input, "sessionType") then Read(input, "sessionType")
    else if NamesType(input, "provider") then Read(input, "provider")
    else Str("freshclaude")
  }

  /** The provider that is written: of the new kind the one it had, if it is one of the three; otherwise
      the one that runs the session type. */
  function ProviderOf(input: Record): Option<string> {
    if IsFresh(input) && Read(input, "provider") in {Str("claude"), Str("codex"), Str("opencode")}
    then Some(Read(input, "provider").s)
    else if TypeOf(input).Str? then RuntimeOf(TypeOf(input).s) else None
  }

  /** The identity behind a rewritten content names that type and that provider. */
  lemma IdentityNames(input: Record) returns (id: Identity)
    requires Rewritten(input)
    ensures id == IdentityOf(input)
    ensures Str(id.sessionType) == TypeOf(input) && ProviderOf(input) == Some(id.provider) && id.provider != ""
  {
    id := IdentityOf(input);
    TypesAreKnown(Read(input, "sessionType"));
    TypesAreKnown(Read(input, "provider"));
    if IsChat(input) {
      TypesAreKnown(Str("freshclaude"));
      ChatNames(input);
    } else {
      FreshNames(input);
    }
  }

  lemma ChatNames(input: Record)
    ensures ChatIdentity(input).sessionType ==
      if NormalizeSessionType(Read(input, "provider")).Some? then Read(input, "provider").s else "freshclaude"
    ensures ChatIdentity(input).provider ==
      if NormalizeSessionType(Read(input, "provider")).Some? then DESCRIPTORS[Read(input, "provider").s] else "claude"
  {
  }

  lemma FreshNames(input: Record)
    requires FreshIdentity(input).Some?
    ensures FreshSessionType(input) == Some(FreshIdentity(input).value.sessionType)
    ensures FreshProvider(input) == Some(FreshIdentity(input).value.provider)
  {
  }

  lemma TypeAndProviderAreWritten(input: Record)
    requires Rewritten(input)
    ensures Read(MigrateContent(input), "sessionType") == TypeOf(input)
    ensures ProviderOf(input).Some? && Read(MigrateContent(input), "provider") == Str(ProviderOf(input).value)
  {
    var id := IdentityNames(input);
    IdentityIsSound(input);
    RebuiltReads(input, id);
  }

  // ---- What can be restored. ----

  /** The explicit reference of the content. */
  predicate HasRef(input: Record, ref: SessionRef) {
    var v := Read(input, "sessionRef");
    && v.Obj? && Read(v.fields, "provider") == Str(ref.provider) && Read(v.fields, "sessionId") == Str(ref.sessionId)
    && ref.provider != "" && ref.sessionId != ""
  }

  ghost predicate HasSomeRef(input: Record) {
    exists ref :: HasRef(input, ref)
  }

  /** The id to resume: the first of three fields that is a string. */
  predicate Resumes(input: Record, id: string) {
    || Read(input, "resumeSessionId") == Str(id)
    || (!Read(input, "resumeSessionId").Str? && Read(input, "timelineSessionId") == Str(id))
    || (!Read(input, "resumeSessionId").Str? && !Read(input, "timelineSessionId").Str?
        && Read(input, "cliSessionId") == Str(id))
  }

  lemma ResumesExactly(input: Record, id: string)
    ensures Resumes(input, id) <==> ResumeId(input) == Some(id)
  {
  }

  /** The identity the content offers: its explicit reference, or else its provider with the id to resume. */
  ghost predicate Offers(input: Record, ref: SessionRef) {
    || HasRef(input, ref)
    || (!HasSomeRef(input) && ProviderOf(input) == Some(ref.provider) && ref.sessionId != ""
        && Resumes(input, ref.sessionId))
  }

  /** Claude sessions are restored by canonical ids only. */
  predicate IsBroken(ref: SessionRef) {
    ref.provider == "claude" && !IsCanonicalClaudeSessionId(ref.sessionId)
  }

  /** The restore error that the content records. */
  predicate Records(input: Record, reason: string) {
    var v := Read(input, "restoreError");
    && v.Obj? && Read(v.fields, "code") == Str("RESTORE_UNAVAILABLE") && Read(v.fields, "reason") == Str(reason)
    && reason in {"missing_canonical_identity", "invalid_legacy_restore_target", "dead_live_handle",
                  "provider_runtime_failed", "durable_artifact_missing"}
  }

  ghost predicate RecordsSome(input: Record) {
    exists reason :: Records(input, reason)
  }

  /** The content cannot be restored: the identity it offers is broken; or, for a legacy chat, its provider
      names nothing known, or it offers no identity and has no session id. */
  ghost predicate CannotBeRestored(input: Record) {
    || (exists ref :: Offers(input, ref) && IsBroken(ref))
    || (IsChat(input) && !(NamesType(input, "provider") || Read(input, "provider") == Str("claude")))
    || (IsChat(input) && (forall ref :: !Offers(input, ref)) && !HasSessionId(input))
  }

  predicate HasSessionId(input: Record) {
    Read(input, "sessionId").Str? && Read(input, "sessionId").s != ""
  }

  lemma RefIs(input: Record)
    ensures forall ref :: HasRef(input, ref) <==> SanitizeSessionRef(Read(input, "sessionRef")) == Some(ref)
    ensures HasSomeRef(input) <==> SanitizeSessionRef(Read(input, "sessionRef")).Some?
  {
    var explicit := SanitizeSessionRef(Read(input, "sessionRef"));
    if explicit.Some? { assert HasRef(input, explicit.value); }
  }

  lemma ErrorIs(input: Record)
    ensures forall reason :: Records(input, reason) <==> ReadRestoreError(Read(input, "restoreError")) == Some(reason)
    ensures RecordsSome(input) <==> ReadRestoreError(Read(input, "restoreError")).Some?
  {
    var recorded := ReadRestoreError(Read(input, "restoreError"));
    if recorded.Some? { assert Records(input, recorded.value); }
  }

  /** The durable state, given the provider that is written. */
  lemma DurableIs(input: Record, provider: string) returns (d: DurableState)
    requires ProviderOf(input) == Some(provider) && provider != ""
    ensures d == MigrateDurableState(Some(provider), Read(input, "sessionRef"), ResumeId(input), true)
    ensures d.Broken? <==> exists ref :: Offers(input, ref) && IsBroken(ref)
    ensures d.NothingDurable? <==> forall ref :: !Offers(input, ref)
    ensures forall ref :: d == Durable(ref) <==> Offers(input, ref) && !IsBroken(ref)
  {
    d := MigrateDurableState(Some(provider), Read(input, "sessionRef"), ResumeId(input), true);
    RefIs(input);
    var explicit, resume := SanitizeSessionRef(Read(input, "sessionRef")), ResumeId(input);
    forall id ensures Resumes(input, id) <==> resume == Some(id) {
      ResumesExactly(input, id);
    }
    if explicit.Some? {
      assert Offers(input, explicit.value);
    } else if resume.Some? && resume.value != "" {
      assert Offers(input, SessionRef(provider, resume.value));
    }
  }

  /** The parts of an identity, by the error recorded, the durable state and what else forbids restoring. */
  predicate IsMadeOf(id: Identity, input: Record, recorded: Option<string>, d: DurableState, hopeless: bool) {
    && id.restoreError == (if recorded.Some? then recorded
                           else if d.Broken? || hopeless then Some("invalid_legacy_restore_target") else None)
    && id.sessionRef == (if id.restoreError.None? && d.Durable? then Some(d.ref) else None)
    && id.resumeSessionId ==
         if id.restoreError == Some("invalid_legacy_restore_target") then None else StringAt(input, "resumeSessionId")
  }

  lemma FreshIsMadeOf(input: Record, provider: string)
    requires FreshIdentity(input).Some? && FreshProvider(input) == Some(provider)
    ensures IsMadeOf(FreshIdentity(input).value, input, ReadRestoreError(Read(input, "restoreError")),
      MigrateDurableState(Some(provider), Read(input, "sessionRef"), ResumeId(input), true), false)
  {
  }

  lemma KnownChatIsMadeOf(input: Record, provider: string)
    requires NormalizeSessionType(Read(input, "provider")).Some? || Read(input, "provider") == Str("claude")
    requires ChatIdentity(input).provider == provider
    ensures var d := MigrateDurableState(Some(provider), Read(input, "sessionRef"), ResumeId(input), true);
      IsMadeOf(ChatIdentity(input), input, ReadRestoreError(Read(input, "restoreError")), d,
        d.NothingDurable? && !HasSessionId(input))
  {
  }

  lemma UnknownChatIsMadeOf(input: Record, d: DurableState)
    requires NormalizeSessionType(Read(input, "provider")).None? && Read(input, "provider") != Str("claude")
    ensures IsMadeOf(ChatIdentity(input), input, ReadRestoreError(Read(input, "restoreError")), d, true)
  {
  }

  lemma IdentityIsMadeOf(input: Record) returns (id: Identity, d: DurableState, hopeless: bool)
    requires Rewritten(input)
    ensures id == IdentityOf(input)
    ensures IsMadeOf(id, input, ReadRestoreError(Read(input, "restoreError")), d, hopeless)
    ensures d.Broken? || hopeless <==> CannotBeRestored(input)
    ensures forall ref :: d == Durable(ref) <==> Offers(input, ref) && !IsBroken(ref)
  {
    id := IdentityNames(input);
    d := DurableIs(input, id.provider);
    TypesAreKnown(Read(input, "provider"));
    if !IsChat(input) {
      hopeless := false;
      FreshNames(input);
      FreshIsMadeOf(input, id.provider);
    } else if NamesType(input, "provider") || Read(input, "provider") == Str("claude") {
      hopeless := d.NothingDurable? && !HasSessionId(input);
      KnownChatIsMadeOf(input, id.provider);
    } else {
      hopeless := true;
      UnknownChatIsMadeOf(input, d);
    }
  }

  /** The identity behind a rewritten content, by what the input offers and records. */
  lemma IdentityIs(input: Record) returns (id: Identity)
    requires Rewritten(input)
    ensures id == IdentityOf(input)
    ensures forall reason :: id.restoreError == Some(reason) <==>
      || Records(input, reason)
      || (!RecordsSome(input) && reason == "invalid_legacy_restore_target" && CannotBeRestored(input))
    ensures forall ref :: id.sessionRef == Some(ref) <==> id.restoreError.None? && Offers(input, ref)
    ensures id.resumeSessionId == (
      if id.restoreError == Some("invalid_legacy_restore_target") then None else StringAt(input, "resumeSessionId"))
  {
    var d, hopeless;
    id, d, hopeless := IdentityIsMadeOf(input);
    ErrorIs(input);
    forall ref ensures id.sessionRef == Some(ref) <==> id.restoreError.None? && Offers(input, ref) {
      if id.restoreError.None? && Offers(input, ref) { assert !IsBroken(ref); }
    }
  }

  function ErrorText(reason: string): Value {
    Obj(map["code" := Str("RESTORE_UNAVAILABLE"), "reason" := Str(reason)])
  }

  function RefText(ref: SessionRef): Value {
    Obj(map["provider" := Str(ref.provider), "sessionId" := Str(ref.sessionId)])
  }

  /** The restore error that is written: the one recorded, or else that the target is invalid, exactly when
      the content cannot be restored. */
  lemma RestoreErrorExactly(input: Record, reason: string)
    requires Rewritten(input)
    ensures Read(MigrateContent(input), "restoreError") == ErrorText(reason) <==>
      || Records(input, reason)
      || (!RecordsSome(input) && reason == "invalid_legacy_restore_target" && CannotBeRestored(input))
    ensures "restoreError" in MigrateContent(input) <==> RecordsSome(input) || CannotBeRestored(input)
  {
    var id := IdentityIs(input);
    IdentityIsSound(input);
    RebuiltReads(input, id);
    if id.restoreError.Some? {
      assert MigrateContent(input)["restoreError"] == BuildRestoreError(id.restoreError.value);
      assert BuildRestoreError(id.restoreError.value).fields["reason"] == Str(id.restoreError.value);
      if id.restoreError == Some(reason) {
        assert id.restoreError.value == reason;
      }
    }
    ErrorIs(input);
    if CannotBeRestored(input) && !RecordsSome(input) {
      assert id.restoreError == Some("invalid_legacy_restore_target");
    }
  }

  /** The reference that is written: the identity the content offers, unless there is a restore error. */
  lemma ReferenceExactly(input: Record, ref: SessionRef)
    requires Rewritten(input)
    ensures Read(MigrateContent(input), "sessionRef") == RefText(ref) <==>
      Offers(input, ref) && !RecordsSome(input) && !CannotBeRestored(input)
  {
    var id := IdentityIs(input);
    IdentityIsSound(input);
    RebuiltReads(input, id);
    RestoreErrorExactly(input, "");
    if id.sessionRef.Some? {
      assert MigrateContent(input)["sessionRef"] == RefValue(id.sessionRef.value);
      assert RefValue(id.sessionRef.value).fields["provider"] == Str(id.sessionRef.value.provider);
      assert RefValue(id.sessionRef.value).fields["sessionId"] == Str(id.sessionRef.value.sessionId);
    }
  }

  /** The resume id that is written: the one the content had under that name, unless the target is invalid. */
  lemma ResumeIdExactly(input: Record, id: string)
    requires Rewritten(input)
    ensures Read(MigrateContent(input), "resumeSessionId") == Str(id) <==>
      && Read(input, "resumeSessionId") == Str(id)
      && !Records(input, "invalid_legacy_restore_target") && (RecordsSome(input) || !CannotBeRestored(input))
  {
    var identity := IdentityIs(input);
    IdentityIsSound(input);
    RebuiltReads(input, identity);
  }

  // ---- The nodes of a tree. ----

  predicate HoldsContent(v: Value) {
    v.Obj? && Read(v.fields, "type") == Str("leaf") && "content" in v.fields && v.fields["content"].Obj?
  }

  predicate HoldsChildren(v: Value) {
    v.Obj? && Read(v.fields, "type") == Str("split") && "children" in v.fields && v.fields["children"].Arr?
  }

  /** The value the path leads to, one child of a split after the other. */
  function NodeAt(v: Value, path: seq<nat>): Option<Value> {
    if path == [] then Some(v)
    else if HoldsChildren(v) && path[0] < |v.fields["children"].items| then
      NodeAt(v.fields["children"].items[path[0]], path[1..])
    else None
  }

  /** A leaf keeps all but its content, which is migrated; a split all but its children, which stay as many;
      any other value stays as it is. */
  predicate NodeIsMigrated(before: Value, after: Value) {
    if HoldsContent(before) then
      after == Obj(before.fields["content" := Obj(MigrateContent(before.fields["content"].fields))])
    else if HoldsChildren(before) then
      && HoldsChildren(after) && after.fields - {"children"} == before.fields - {"children"}
      && |after.fields["children"].items| == |before.fields["children"].items|
    else after == before
  }

  lemma {:induction false} MigratesEach(children: seq<Value>)
    ensures |MigrateAll(children)| == |children|
  {
    if children != [] { MigratesEach(children[1..]); }
  }

  lemma {:induction false} MigratedChild(children: seq<Value>, i: nat) returns (all: seq<Value>)
    requires i < |children|
    ensures all == MigrateAll(children) && |all| == |children| && all[i] == MigrateNode(children[i])
  {
    var rest := MigrateAll(children[1..]);
    all := [MigrateNode(children[0])] + rest;
    MigratesEach(children[1..]);
    if i > 0 { rest := MigratedChild(children[1..], i - 1); }
  }

  lemma RootIsMigrated(v: Value)
    ensures NodeIsMigrated(v, MigrateNode(v))
    ensures HoldsChildren(v) <==> HoldsChildren(MigrateNode(v))
    ensures HoldsChildren(v) ==> MigrateNode(v).fields["children"].items == MigrateAll(v.fields["children"].items)
  {
    if HoldsChildren(v) { MigratesEach(v.fields["children"].items); }
  }

  /** The migration of a tree, node by node: the same paths lead to nodes, and each is migrated by itself. */
  lemma {:induction false} NodesAreMigrated(v: Value, path: seq<nat>)
    ensures NodeAt(v, path).Some? <==> NodeAt(MigrateNode(v), path).Some?
    ensures NodeAt(v, path).Some? ==> NodeIsMigrated(NodeAt(v, path).value, NodeAt(MigrateNode(v), path).value)
    decreases |path|
  {
    RootIsMigrated(v);
    if path != [] && HoldsChildren(v) && path[0] < |v.fields["children"].items| {
      var all := MigratedChild(v.fields["children"].items, path[0]);
      NodesAreMigrated(v.fields["children"].items[path[0]], path[1..]);
    }
  }
}
