/** The migration of legacy pane trees and the thread keys of shared/fresh-agent.ts. */
module FreshAgent {
  import opened Basics
  import opened SessionContract

  const PROVIDERS := {"claude", "codex", "opencode"}

  /** The runtime provider of each session type. */
  const DESCRIPTORS := map["freshclaude" := "claude", "freshcodex" := "codex", "kilroy" := "claude",
                           "freshopencode" := "opencode"]

  function NormalizeSessionType(v: Value): Option<string> {
    if v.Str? && v.s in DESCRIPTORS then Some(v.s) else None
  }

  function ResolveRuntimeProvider(sessionType: Option<string>): Option<string> {
    if sessionType.Some? && sessionType.value in DESCRIPTORS then Some(DESCRIPTORS[sessionType.value]) else None
  }

  function OrElse<T>(a: Option<T>, b: Option<T>): Option<T> {
    if a.Some? then a else b
  }

  // ---- The durable state. ----

  datatype DurableState = NothingDurable | Durable(ref: SessionRef) | Broken

  /** `rejectNonCanonicalClaudeSessionRef` is set by every content migration. */
  function MigrateDurableState(provider: Option<string>, sessionRef: Value, resumeSessionId: Option<string>,
                               rejectNonCanonicalClaudeSessionRef: bool): DurableState
  {
    var explicit := SanitizeSessionRef(sessionRef);
    if explicit.Some? then
      if rejectNonCanonicalClaudeSessionRef && explicit.value.provider == "claude"
         && !IsCanonicalClaudeSessionId(explicit.value.sessionId) then Broken
      else Durable(explicit.value)
    else if provider.None? || provider.value == "" || resumeSessionId.None? || resumeSessionId.value == "" then
      NothingDurable
    else if provider.value == "claude" && !IsCanonicalClaudeSessionId(resumeSessionId.value) then Broken
    else Durable(SessionRef(provider.value, resumeSessionId.value))
  }

  /** Whatever the input, a durable claude identity is canonical and no part of an identity is empty. */
  lemma DurableIsCanonical(provider: Option<string>, sessionRef: Value, resumeSessionId: Option<string>)
    ensures var d := MigrateDurableState(provider, sessionRef, resumeSessionId, true);
      d.Durable? ==> d.ref.provider != "" && d.ref.sessionId != ""
                     && (d.ref.provider == "claude" ==> IsCanonicalClaudeSessionId(d.ref.sessionId))
  {
  }

  function ReadRestoreError(v: Value): Option<string> {
    if v.Obj? && Read(v.fields, "code") == Str("RESTORE_UNAVAILABLE") && Read(v.fields, "reason").Str?
       && Read(v.fields, "reason").s in RESTORE_ERROR_REASONS then Some(Read(v.fields, "reason").s)
    else None
  }

  // ---- One pane's content. ----

  /** What a migrated content says about its session. */
  datatype Identity = Identity(
    sessionType: string,
    provider: string,
    resumeSessionId: Option<string>,
    sessionRef: Option<SessionRef>,
    restoreError: Option<string>)

  const DROPPED := {"kind", "provider", "sessionRef", "resumeSessionId", "timelineSessionId", "cliSessionId",
                    "restoreError", "showThinking", "showTools"}

  /** A conditional spread of one property. */
  function With(record: Record, key: string, v: Option<Value>): Record {
    if v.Some? then record[key := v.value] else record
  }

  function AsString(s: Option<string>): Option<Value> {
    if s.Some? then Some(Str(s.value)) else None
  }

  function AsRef(ref: Option<SessionRef>): Option<Value> {
    if ref.Some? then Some(RefValue(ref.value)) else None
  }

  function AsError(reason: Option<string>): Option<Value> {
    if reason.Some? then Some(BuildRestoreError(reason.value)) else None
  }

  function Named(input: Record, id: Identity): Record {
    (input - DROPPED)["kind" := Str("fresh-agent")]
      ["provider" := Str(id.provider)]["sessionType" := Str(id.sessionType)]
  }

  /** The input without the dropped keys, plus the identity. */
  function Rebuilt(input: Record, id: Identity): Record {
    With(With(With(Named(input, id), "resumeSessionId", AsString(id.resumeSessionId)),
              "sessionRef", AsRef(id.sessionRef)),
         "restoreError", AsError(id.restoreError))
  }

  function ResumeId(input: Record): Option<string> {
    OrElse(StringAt(input, "resumeSessionId"),
      OrElse(StringAt(input, "timelineSessionId"), StringAt(input, "cliSessionId")))
  }

  /** The identity with a restore error: the legacy target that is invalid also loses its resume id. */
  function Unrestorable(sessionType: string, provider: string, input: Record, reason: string): Identity {
    Identity(sessionType, provider, if reason == INVALID_LEGACY then None else StringAt(input, "resumeSessionId"),
      None, Some(reason))
  }

  function Restorable(sessionType: string, provider: string, input: Record, d: DurableState): Identity
    requires !d.Broken?
  {
    Identity(sessionType, provider, StringAt(input, "resumeSessionId"), if d.Durable? then Some(d.ref) else None, None)
  }

  function FreshSessionType(input: Record): Option<string> {
    OrElse(NormalizeSessionType(Read(input, "sessionType")), NormalizeSessionType(Read(input, "provider")))
  }

  function FreshProvider(input: Record): Option<string> {
    var provider := StringAt(input, "provider");
    if provider.Some? && provider.value in PROVIDERS then provider
    else ResolveRuntimeProvider(FreshSessionType(input))
  }

  /** Content that already is of the new kind; None when its session type or provider is unknown. */
  function FreshIdentity(input: Record): Option<Identity> {
    var sessionType, provider := FreshSessionType(input), FreshProvider(input);
    if sessionType.None? || provider.None? then None else
    var existing := ReadRestoreError(Read(input, "restoreError"));
    if existing.Some? then Some(Unrestorable(sessionType.value, provider.value, input, existing.value)) else
    var durable := MigrateDurableState(provider, Read(input, "sessionRef"), ResumeId(input), true);
    Some(if durable.Broken? then Unrestorable(sessionType.value, provider.value, input, INVALID_LEGACY)
         else Restorable(sessionType.value, provider.value, input, durable))
  }

  /** Content of the retired chat kind. */
  function ChatIdentity(input: Record): Identity {
    var isClaude := Read(input, "provider") == Str("claude");
    var sessionType := OrElse(NormalizeSessionType(Read(input, "provider")),
                              if isClaude then Some("freshclaude") else None);
    var provider := OrElse(ResolveRuntimeProvider(sessionType), if isClaude then Some("claude") else None);
    var durable := MigrateDurableState(provider, Read(input, "sessionRef"), ResumeId(input), true);
    var sessionId := StringAt(input, "sessionId");
    var hasUsableIdentity := durable.Durable? || (sessionId.Some? && sessionId.value != "");
    var restoreError :=
      OrElse(ReadRestoreError(Read(input, "restoreError")),
        if durable.Broken? || sessionType.None? || provider.None? || !hasUsableIdentity then Some(INVALID_LEGACY)
        else None);
    var theType := if sessionType.Some? then sessionType.value else "freshclaude";
    var theProvider := if provider.Some? then provider.value else "claude";
    if restoreError.Some? then Unrestorable(theType, theProvider, input, restoreError.value)
    else Restorable(theType, theProvider, input, durable)
  }

  function MigrateContent(input: Record): Record {
    if Read(input, "kind") == Str("fresh-agent") then
      match FreshIdentity(input)
      case None => input
      case Some(id) => Rebuilt(input, id)
    else if Read(input, "kind") == Str("agent-chat") then Rebuilt(input, ChatIdentity(input))
    else input
  }

  // ---- A pane tree. ----

  predicate IsLeaf(v: Value) {
    v.Obj? && Read(v.fields, "type") == Str("leaf") && Read(v.fields, "content").Obj?
  }

  predicate IsSplit(v: Value) {
    v.Obj? && Read(v.fields, "type") == Str("split") && Read(v.fields, "children").Arr?
  }

  function MigrateNode(v: Value): Value {
    if IsLeaf(v) then Obj(v.fields["content" := Obj(MigrateContent(v.fields["content"].fields))])
    else if IsSplit(v) then Obj(v.fields["children" := Arr(MigrateAll(v.fields["children"].items))])
    else v
  }

  function MigrateAll(children: seq<Value>): seq<Value> {
    if children == [] then [] else [MigrateNode(children[0])] + MigrateAll(children[1..])
  }

  // ---- What an identity keeps. ----

  /** What every identity the migration writes satisfies. */
  predicate Sound(id: Identity) {
    && id.sessionType in DESCRIPTORS && id.provider in PROVIDERS
    && match id.restoreError
       case Some(reason) =>
         && reason in RESTORE_ERROR_REASONS && id.sessionRef.None?
         && (reason == INVALID_LEGACY ==> id.resumeSessionId.None?)
       case None =>
         match id.sessionRef
         case Some(ref) =>
           && ref.provider != "" && ref.sessionId != ""
           && (ref.provider == "claude" ==> IsCanonicalClaudeSessionId(ref.sessionId))
         case None => id.resumeSessionId.None? || id.resumeSessionId.value == ""
  }

  lemma UnrestorableIsSound(sessionType: string, provider: string, input: Record, reason: string)
    requires sessionType in DESCRIPTORS && provider in PROVIDERS && reason in RESTORE_ERROR_REASONS
    ensures Sound(Unrestorable(sessionType, provider, input, reason))
  {
  }

  lemma RestorableIsSound(sessionType: string, provider: string, input: Record)
    requires sessionType in DESCRIPTORS && provider in PROVIDERS
    ensures var d := MigrateDurableState(Some(provider), Read(input, "sessionRef"), ResumeId(input), true);
      !d.Broken? ==> Sound(Restorable(sessionType, provider, input, d))
  {
    DurableIsCanonical(Some(provider), Read(input, "sessionRef"), ResumeId(input));
  }

  lemma ProvidersAreKnown(sessionType: Option<string>)
    ensures ResolveRuntimeProvider(sessionType).Some? ==> ResolveRuntimeProvider(sessionType).value in PROVIDERS
  {
  }

  lemma FreshIdentityIsSound(input: Record)
    ensures FreshIdentity(input).Some? ==> Sound(FreshIdentity(input).value)
  {
    var sessionType, provider := FreshSessionType(input), FreshProvider(input);
    if sessionType.Some? && provider.Some? {
      ProvidersAreKnown(sessionType);
      RestorableIsSound(sessionType.value, provider.value, input);
      UnrestorableIsSound(sessionType.value, provider.value, input, INVALID_LEGACY);
      var existing := ReadRestoreError(Read(input, "restoreError"));
      if existing.Some? { UnrestorableIsSound(sessionType.value, provider.value, input, existing.value); }
    }
  }

  lemma ChatIdentityIsSound(input: Record)
    ensures Sound(ChatIdentity(input))
  {
  }

  predicate Rewritten(input: Record) {
    || Read(input, "kind") == Str("agent-chat")
    || (Read(input, "kind") == Str("fresh-agent") && FreshIdentity(input).Some?)
  }

  function IdentityOf(input: Record): (id: Identity)
    requires Rewritten(input)
  {
    if Read(input, "kind") == Str("agent-chat") then ChatIdentity(input) else FreshIdentity(input).value
  }

  lemma IdentityIsSound(input: Record)
    requires Rewritten(input)
    ensures Sound(IdentityOf(input)) && MigrateContent(input) == Rebuilt(input, IdentityOf(input))
  {
    FreshIdentityIsSound(input);
    ChatIdentityIsSound(input);
  }

  lemma RebuiltReads(input: Record, id: Identity)
    ensures var m := Rebuilt(input, id);
      && Read(m, "kind") == Str("fresh-agent") && Read(m, "provider") == Str(id.provider)
      && Read(m, "sessionType") == Str(id.sessionType)
      && "timelineSessionId" !in m && "cliSessionId" !in m && "showThinking" !in m && "showTools" !in m
    ensures var m := Rebuilt(input, id);
      && ("resumeSessionId" in m <==> id.resumeSessionId.Some?)
      && ("sessionRef" in m <==> id.sessionRef.Some?)
      && ("restoreError" in m <==> id.restoreError.Some?)
      && StringAt(m, "resumeSessionId") == id.resumeSessionId
      && (id.sessionRef.Some? ==> m["sessionRef"] == RefValue(id.sessionRef.value))
      && (id.restoreError.Some? ==> m["restoreError"] == BuildRestoreError(id.restoreError.value))
  {
    var named := Named(input, id);
    assert forall k :: k in DROPPED && k != "kind" && k != "provider" ==> k !in named;
  }

  lemma ReadsBack(ref: SessionRef, reason: string)
    requires ref.provider != "" && ref.sessionId != "" && reason in RESTORE_ERROR_REASONS
    ensures SanitizeSessionRef(RefValue(ref)) == Some(ref)
    ensures ReadRestoreError(BuildRestoreError(reason)) == Some(reason)
  {
  }

  /** A sound identity that was written reads back as itself. */
  lemma WrittenIdentityReadsBack(input: Record, id: Identity)
    requires Sound(id)
    ensures FreshIdentity(Rebuilt(input, id)) == Some(id)
  {
    RebuiltReads(input, id);
    if id.sessionRef.Some? { ReadsBack(id.sessionRef.value, INVALID_LEGACY); }
    if id.restoreError.Some? { ReadsBack(SessionRef("p", "s"), id.restoreError.value); }
  }

  lemma RebuildingIsIdempotent(input: Record, id: Identity)
    ensures Rebuilt(Rebuilt(input, id), id) == Rebuilt(input, id)
  {
  }

  // ---- The theorems about contents. ----

  /** Migrating a migrated content changes nothing. */
  lemma ContentMigrationIsIdempotent(input: Record)
    ensures MigrateContent(MigrateContent(input)) == MigrateContent(input)
  {
    if Rewritten(input) {
      var id := IdentityOf(input);
      IdentityIsSound(input);
      RebuiltReads(input, id);
      WrittenIdentityReadsBack(input, id);
      RebuildingIsIdempotent(input, id);
    }
  }

  /** What the fields of a rewritten content never combine. */
  predicate Sane(m: Record) {
    && Read(m, "kind") == Str("fresh-agent")
    && NormalizeSessionType(Read(m, "sessionType")).Some?
    && Read(m, "provider").Str? && Read(m, "provider").s in PROVIDERS
    && ("restoreError" in m ==> "sessionRef" !in m && ReadRestoreError(m["restoreError"]).Some?)
    && ("restoreError" in m && ReadRestoreError(m["restoreError"]) == Some(INVALID_LEGACY) ==> "resumeSessionId" !in m)
    && ("sessionRef" in m ==> SanitizeSessionRef(m["sessionRef"]).Some?)
    && ("sessionRef" in m && SanitizeSessionRef(m["sessionRef"]).value.provider == "claude" ==>
          IsCanonicalClaudeSessionId(SanitizeSessionRef(m["sessionRef"]).value.sessionId))
    && "timelineSessionId" !in m && "cliSessionId" !in m && "showThinking" !in m && "showTools" !in m
  }

  lemma RebuiltIsSane(input: Record, id: Identity)
    requires Sound(id)
    ensures Sane(Rebuilt(input, id))
  {
    RebuiltReads(input, id);
    if id.sessionRef.Some? { ReadsBack(id.sessionRef.value, INVALID_LEGACY); }
    if id.restoreError.Some? { ReadsBack(SessionRef("p", "s"), id.restoreError.value); }
  }

  /** Every content the migration rewrites is sane, and it rewrites every legacy chat. */
  lemma RewrittenContentIsSane(input: Record)
    ensures Rewritten(input) ==> Sane(MigrateContent(input))
    ensures !Rewritten(input) ==> MigrateContent(input) == input
    ensures Read(MigrateContent(input), "kind") != Str("agent-chat")
  {
    if Rewritten(input) {
      IdentityIsSound(input);
      RebuiltIsSane(input, IdentityOf(input));
    }
  }

  /** Every other field stays as it was. */
  lemma OtherFieldsStay(input: Record, key: string)
    requires key !in {"kind", "provider", "sessionType", "sessionRef", "resumeSessionId", "timelineSessionId",
                      "cliSessionId", "restoreError", "showThinking", "showTools"}
    ensures key in MigrateContent(input) <==> key in input
    ensures Read(MigrateContent(input), key) == Read(input, key)
  {
    if Rewritten(input) {
      IdentityIsSound(input);
    }
  }

  /** A rewritten content keeps a usable reference exactly when nothing says it cannot be restored,
      and never invents one: it is the reference it had, or its provider with a resume id it had. */
  lemma ReferencesAreNotInvented(input: Record)
    requires Rewritten(input) && "sessionRef" in MigrateContent(input)
    ensures
      var ref := SanitizeSessionRef(MigrateContent(input)["sessionRef"]);
      ref.Some? &&
      (SanitizeSessionRef(Read(input, "sessionRef")) == ref
       || (SanitizeSessionRef(Read(input, "sessionRef")).None?
           && Read(MigrateContent(input), "provider") == Str(ref.value.provider)
           && ResumeId(input) == Some(ref.value.sessionId)))
  {
    IdentityIsSound(input);
    RebuiltReads(input, IdentityOf(input));
    ReadsBack(IdentityOf(input).sessionRef.value, INVALID_LEGACY);
  }

  /** The explicit references the migration accepts. */
  predicate AcceptableRef(ref: SessionRef) {
    ref.provider == "claude" ==> IsCanonicalClaudeSessionId(ref.sessionId)
  }

  predicate HasRestoreError(input: Record) {
    ReadRestoreError(Read(input, "restoreError")).Some?
  }

  /** An explicit reference survives exactly when it is acceptable, no restore error was recorded,
      and, for a legacy chat, the session type is known. */
  lemma ReferencesSurviveExactly(input: Record, ref: SessionRef)
    requires Rewritten(input) && SanitizeSessionRef(Read(input, "sessionRef")) == Some(ref)
    ensures "sessionRef" in MigrateContent(input) <==>
      && AcceptableRef(ref) && !HasRestoreError(input)
      && (Read(input, "kind") == Str("agent-chat") ==>
            NormalizeSessionType(Read(input, "provider")).Some? || Read(input, "provider") == Str("claude"))
    ensures "sessionRef" in MigrateContent(input) ==> MigrateContent(input)["sessionRef"] == RefValue(ref)
  {
    IdentityIsSound(input);
    RebuiltReads(input, IdentityOf(input));
  }

  // ---- The theorems about trees. ----

  /** The contents of the leaves, left to right. */
  function Leaves(v: Value): seq<Record> {
    if IsLeaf(v) then [v.fields["content"].fields]
    else if IsSplit(v) then LeavesOf(v.fields["children"].items)
    else []
  }

  function LeavesOf(children: seq<Value>): seq<Record> {
    if children == [] then [] else Leaves(children[0]) + LeavesOf(children[1..])
  }

  /** The tree with every leaf's content taken out. */
  function Skeleton(v: Value): Value {
    if IsLeaf(v) then Obj(v.fields["content" := Null])
    else if IsSplit(v) then Obj(v.fields["children" := Arr(SkeletonOf(v.fields["children"].items))])
    else v
  }

  function SkeletonOf(children: seq<Value>): seq<Value> {
    if children == [] then [] else [Skeleton(children[0])] + SkeletonOf(children[1..])
  }

  function MigrateEach(contents: seq<Record>): seq<Record> {
    if contents == [] then [] else [MigrateContent(contents[0])] + MigrateEach(contents[1..])
  }

  lemma {:induction false} MigrateEachAppend(a: seq<Record>, b: seq<Record>)
    ensures MigrateEach(a + b) == MigrateEach(a) + MigrateEach(b)
  {
    if a == [] {
      assert a + b == b;
    } else {
      assert (a + b)[1..] == a[1..] + b;
      MigrateEachAppend(a[1..], b);
    }
  }

  /** The migration maps the content of every leaf, in place, and touches nothing else in the tree. */
  lemma {:induction false} MigrationMapsTheLeaves(v: Value)
    ensures Leaves(MigrateNode(v)) == MigrateEach(Leaves(v))
    ensures Skeleton(MigrateNode(v)) == Skeleton(v)
    decreases v, 1
  {
    var m := MigrateNode(v);
    if IsLeaf(v) {
      assert [v.fields["content"].fields][1..] == [];
      assert m.fields["content" := Null] == v.fields["content" := Null];
    } else if IsSplit(v) {
      var children := v.fields["children"].items;
      MigrationMapsEach(children);
      var skeleton := Arr(SkeletonOf(children));
      assert m.fields["children" := skeleton] == v.fields["children" := skeleton];
    }
  }

  lemma {:induction false} MigrationMapsEach(children: seq<Value>)
    ensures LeavesOf(MigrateAll(children)) == MigrateEach(LeavesOf(children))
    ensures SkeletonOf(MigrateAll(children)) == SkeletonOf(children)
    decreases children, 0
  {
    if children != [] {
      MigrationMapsTheLeaves(children[0]);
      MigrationMapsEach(children[1..]);
      assert MigrateAll(children)[1..] == MigrateAll(children[1..]);
      MigrateEachAppend(Leaves(children[0]), LeavesOf(children[1..]));
    }
  }

  /** Migrating a migrated tree, or any other value, changes nothing. */
  lemma {:induction false} NodeMigrationIsIdempotent(v: Value)
    ensures MigrateNode(MigrateNode(v)) == MigrateNode(v)
    decreases v, 1
  {
    var m := MigrateNode(v);
    if IsLeaf(v) {
      ContentMigrationIsIdempotent(v.fields["content"].fields);
      assert m.fields["content" := m.fields["content"]] == m.fields;
    } else if IsSplit(v) {
      EachMigrationIsIdempotent(v.fields["children"].items);
      assert IsSplit(m) && !IsLeaf(m);
      assert m.fields["children" := m.fields["children"]] == m.fields;
    }
  }

  lemma {:induction false} EachMigrationIsIdempotent(children: seq<Value>)
    ensures MigrateAll(MigrateAll(children)) == MigrateAll(children)
    decreases children, 0
  {
    if children != [] {
      NodeMigrationIsIdempotent(children[0]);
      EachMigrationIsIdempotent(children[1..]);
      assert MigrateAll(children)[1..] == MigrateAll(children[1..]);
    }
  }

  lemma {:induction false} MigratedAt(contents: seq<Record>, i: nat)
    requires i < |contents|
    ensures |MigrateEach(contents)| == |contents| && MigrateEach(contents)[i] == MigrateContent(contents[i])
  {
    if |contents| > 1 { MigratedAt(contents[1..], if i > 0 then i - 1 else 0); }
  }

  /** In a migrated tree no leaf is a legacy chat, and every leaf that was rewritten is sane. */
  lemma MigratedTreeIsSane(v: Value, i: nat)
    requires i < |Leaves(v)|
    ensures |Leaves(MigrateNode(v))| == |Leaves(v)|
    ensures Read(Leaves(MigrateNode(v))[i], "kind") != Str("agent-chat")
    ensures Rewritten(Leaves(v)[i]) ==> Sane(Leaves(MigrateNode(v))[i])
  {
    MigrationMapsTheLeaves(v);
    MigratedAt(Leaves(v), i);
    RewrittenContentIsSane(Leaves(v)[i]);
  }

  // ---- Thread keys. ----

  datatype ThreadIdentity = ThreadIdentity(sessionType: string, provider: string, threadId: string)

  function MakeThreadKey(identity: ThreadIdentity): string {
    identity.sessionType + ":" + identity.provider + ":" + identity.threadId
  }

  lemma NoColonIn(s: string)
    requires s in {"freshclaude", "freshcodex", "kilroy", "freshopencode"} || s in {"claude", "codex", "opencode"}
    ensures ':' !in s
  {
  }

  lemma KeyHasParts(identity: ThreadIdentity) returns (rest: string)
    ensures rest == identity.provider + ":" + identity.threadId
    ensures MakeThreadKey(identity) == identity.sessionType + ":" + rest
  {
    rest := identity.provider + ":" + identity.threadId;
  }

  /** Two thread identities of the declared types share a key only when they are equal. */
  lemma ThreadKeysAreInjective(a: ThreadIdentity, b: ThreadIdentity)
    requires forall i :: i in {a, b} ==> i.sessionType in {"freshclaude", "freshcodex", "kilroy", "freshopencode"}
    requires forall i :: i in {a, b} ==> i.provider in {"claude", "codex", "opencode"}
    requires MakeThreadKey(a) == MakeThreadKey(b)
    ensures a == b
  {
    assert a in {a, b} && b in {a, b};
    NoColonIn(a.sessionType);
    NoColonIn(b.sessionType);
    NoColonIn(a.provider);
    NoColonIn(b.provider);
    var x := KeyHasParts(a);
    var y := KeyHasParts(b);
    ColonFreeHeadsJoinInjectively(a.sessionType, x, b.sessionType, y);
    ColonFreeHeadsJoinInjectively(a.provider, a.threadId, b.provider, b.threadId);
  }
}
