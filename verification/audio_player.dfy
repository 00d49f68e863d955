/**
  The playback controller of `useAudioPlayer` (hooks/useAudioPlayer.ts:35-88):
  the audio context reference, the current source reference and the
  `isPlaying` flag, changed by `play`, `stop`, a source's "ended" event and
  the effect cleanup run on unmount.

  Web Audio objects are opaque handles. A source is identified by its
  position in `sources`, the list of every source node ever started; an
  "ended" event names the source it belongs to.
 */
module AudioPlayer {
  import opened Wrappers
  import Base64
  import Pcm

  /** The context is created for 24 kHz audio and decoded at that rate (hooks/useAudioPlayer.ts:47, 54). */
  const SampleRate := 24000

  /** A source node's life: started, stopped but its "ended" event not yet delivered, ended. */
  datatype SourceState = Playing | Stopped | Finished

  datatype Source = Source(buffer: Pcm.AudioBuffer, context: nat, state: SourceState)

  /** An AudioContext; `closed` is its state 'closed'. */
  datatype Context = Context(id: nat, sampleRate: int, closed: bool)

  datatype Player = Player(
    context: Option<Context>,  // audioContextRef.current
    contextsCreated: nat,      // how many contexts have been made, so a new one has a fresh id
    sources: seq<Source>,      // every source started so far, indexed by identity
    current: Option<nat>,      // sourceRef.current
    isPlaying: bool)           // the isPlaying state

  /** Why `play` rejected: `atob` or `decodeAudioData` threw. */
  datatype PlayError = DecodeFailed(cause: Base64.DomException) | ConversionFailed(reason: Pcm.PcmError)

  /** What `play` leaves behind, and the error it rejects with, if any. */
  datatype PlayStep = PlayStep(player: Player, failure: Option<PlayError>)

  /** The hook's state on first render (hooks/useAudioPlayer.ts:36-38). */
  const Initial := Player(None, 0, [], None, false)

  /** References only point at objects that have been created. */
  predicate Valid(p: Player) {
    && (p.current.Some? ==> p.current.value < |p.sources|)
    && (p.context.Some? ==> p.context.value.id < p.contextsCreated)
    && (forall id :: 0 <= id < |p.sources| ==> p.sources[id].context < p.contextsCreated)
  }

  /** `source.stop()`: a playing source stops; a stopped or ended one is unaffected. */
  function StopSource(sources: seq<Source>, id: nat): (r: seq<Source>)
    requires id < |sources|
    ensures |r| == |sources|
    ensures r[id].state != Playing
    ensures r[id].state == (if sources[id].state == Playing then Stopped else sources[id].state)
    ensures forall j :: 0 <= j < |r| && j != id ==> r[j] == sources[j]
  {
    if sources[id].state == Playing then sources[id := sources[id].(state := Stopped)] else sources
  }

  /**
    `stop` (hooks/useAudioPlayer.ts:70-74): stops the current source if
    there is one. It clears neither the reference nor `isPlaying`; only the
    source's "ended" event does.
   */
  function Stop(p: Player): (r: Player)
    requires Valid(p)
    ensures Valid(r)
    ensures r.current == p.current && r.isPlaying == p.isPlaying && r.context == p.context
    ensures p.current.None? ==> r == p
    ensures p.current.Some? ==> r.sources[p.current.value].state != Playing
    ensures |r.sources| == |p.sources|
    ensures forall id :: 0 <= id < |p.sources| && Some(id) != p.current ==> r.sources[id] == p.sources[id]
  {
    match p.current
    case None => p
    case Some(id) => p.(sources := StopSource(p.sources, id))
  }

  /** The payload decodes to a non-empty, whole number of 16-bit samples. */
  predicate Playable(base64Audio: string) {
    var bytes := Base64.Decode(base64Audio);
    bytes.Success? && |bytes.value| % 2 == 0 && |bytes.value| > 0
  }

  /**
    The decoding half of `play` (hooks/useAudioPlayer.ts:50-54): `decode`
    then `decodeAudioData` at 24 kHz, mono.
   */
  function DecodePayload(base64Audio: string): (r: Result<Pcm.AudioBuffer, PlayError>)
    ensures r.Success? <==> Playable(base64Audio)
    ensures Base64.Decode(base64Audio).Failure? ==> r == Failure(DecodeFailed(Base64.Decode(base64Audio).error))
    ensures r.Success? ==> Pcm.DecodePcm(Base64.Decode(base64Audio).value, SampleRate, 1) == Success(r.value)
  {
    match Base64.Decode(base64Audio)
    case Failure(e) => Failure(DecodeFailed(e))
    case Success(audioBytes) =>
      assert (|audioBytes| / 2) % 1 == 0;
      match Pcm.DecodePcm(audioBytes, SampleRate, 1)
      case Failure(e) => Failure(ConversionFailed(e))
      case Success(audioBuffer) => Success(audioBuffer)
  }

  /**
    Reuse the context unless there is none or it has been closed, in which
    case a new 24 kHz one replaces it (hooks/useAudioPlayer.ts:46-48).
   */
  function OpenContext(p: Player): (r: Player)
    requires Valid(p)
    ensures Valid(r) && r.context.Some? && !r.context.value.closed
    ensures r.sources == p.sources && r.current == p.current && r.isPlaying == p.isPlaying
    ensures p.context.Some? && !p.context.value.closed ==>
      r.context == p.context && r.contextsCreated == p.contextsCreated
    ensures p.context.None? || p.context.value.closed ==>
      r.context == Some(Context(p.contextsCreated, SampleRate, false)) && r.contextsCreated == p.contextsCreated + 1
  {
    if p.context.None? || p.context.value.closed then
      p.(context := Some(Context(p.contextsCreated, SampleRate, false)), contextsCreated := p.contextsCreated + 1)
    else p
  }

  /** Start a new source on the open context and make it the current one (hooks/useAudioPlayer.ts:56-66). */
  function Start(p: Player, buffer: Pcm.AudioBuffer): (r: Player)
    requires Valid(p) && p.context.Some?
    ensures Valid(r)
    ensures |r.sources| == |p.sources| + 1 && r.sources[..|p.sources|] == p.sources
    ensures r.sources[|p.sources|] == Source(buffer, p.context.value.id, Playing)
    ensures r.current == Some(|p.sources|) && r.isPlaying
    ensures r.context == p.context && r.contextsCreated == p.contextsCreated
  {
    p.(sources := p.sources + [Source(buffer, p.context.value.id, Playing)],
       current := Some(|p.sources|),
       isPlaying := true)
  }

  /**
    `play` (hooks/useAudioPlayer.ts:40-68): stop the current source, make a
    fresh 24 kHz context unless an open one exists, decode the payload and
    start a new source as the current one. A decoding error rejects the
    call after the old source has been stopped and the context made.
   */
  function Play(p: Player, base64Audio: string): (r: PlayStep)
    requires Valid(p)
    ensures Valid(r.player)
    ensures |r.player.sources| >= |p.sources|
    ensures p.context.Some? && !p.context.value.closed ==>
      r.player.context == p.context && r.player.contextsCreated == p.contextsCreated
    ensures p.context.None? || p.context.value.closed ==>
      r.player.context == Some(Context(p.contextsCreated, SampleRate, false))
      && r.player.contextsCreated == p.contextsCreated + 1
    ensures p.current.Some? ==> r.player.sources[p.current.value].state != Playing
    ensures forall id :: 0 <= id < |p.sources| && Some(id) != p.current ==> r.player.sources[id] == p.sources[id]
    ensures r.failure.None? <==> Playable(base64Audio)
    ensures r.failure.None? ==>
      && |r.player.sources| == |p.sources| + 1
      && r.player.current == Some(|p.sources|)
      && r.player.isPlaying
      && r.player.sources[|p.sources|].state == Playing
      && r.player.sources[|p.sources|].context == r.player.context.value.id
      && Pcm.DecodePcm(Base64.Decode(base64Audio).value, SampleRate, 1) == Success(r.player.sources[|p.sources|].buffer)
    ensures r.failure.Some? ==>
      && |r.player.sources| == |p.sources|
      && r.player.current == p.current
      && r.player.isPlaying == p.isPlaying
  {
    var ready := OpenContext(Stop(p));
    match DecodePayload(base64Audio)
    case Failure(e) => PlayStep(ready, Some(e))
    case Success(audioBuffer) => PlayStep(Start(ready, audioBuffer), None)
  }

  /** An "ended" event can only come from a started source, and only once. */
  predicate CanEnd(p: Player, id: nat) {
    id < |p.sources| && p.sources[id].state != Finished
  }

  /**
    The `onended` handler as written (hooks/useAudioPlayer.ts:60-63): the
    source has finished, and the handler clears `isPlaying` and the current
    reference whichever source the event came from.
   */
  function Ended(p: Player, id: nat): (r: Player)
    requires Valid(p) && CanEnd(p, id)
    ensures Valid(r)
    ensures !r.isPlaying && r.current.None?
    ensures r.context == p.context && |r.sources| == |p.sources|
    ensures r.sources[id].state == Finished
    ensures forall j :: 0 <= j < |p.sources| && j != id ==> r.sources[j] == p.sources[j]
  {
    p.(sources := p.sources[id := p.sources[id].(state := Finished)], current := None, isPlaying := false)
  }

  /**
    The cleanup of the mount effect (hooks/useAudioPlayer.ts:76-85): stop
    the current source if any, close the context if any.
   */
  function Teardown(p: Player): (r: Player)
    requires Valid(p)
    ensures Valid(r)
    ensures |r.sources| == |p.sources|
    ensures p.current.Some? ==> r.sources[p.current.value].state != Playing
    ensures p.context.None? ==> r.context.None?
    ensures p.context.Some? ==> r.context == Some(p.context.value.(closed := true))
    ensures r.current == p.current && r.isPlaying == p.isPlaying
    ensures forall id :: 0 <= id < |p.sources| && Some(id) != p.current ==> r.sources[id] == p.sources[id]
  {
    var stopped := Stop(p);
    match stopped.context
    case None => stopped
    case Some(ctx) => stopped.(context := Some(ctx.(closed := true)))
  }

  // ---------------------------------------------------------------------
  // Properties of the controller as written.

  /** `stop` is idempotent. */
  lemma StopIdempotent(p: Player)
    requires Valid(p)
    ensures Stop(Stop(p)) == Stop(p)
  {
  }

  /** Stopping with no current source changes nothing, and never clears `isPlaying`. */
  lemma StopWhenIdle(p: Player)
    requires Valid(p) && p.current.None?
    ensures Stop(p) == p
  {
  }

  /** A second `play` stops the first source before the second one starts. */
  lemma PlayTwiceStopsFirst(p: Player, a: string, b: string)
    requires Valid(p) && Playable(a) && Playable(b)
    ensures var first := Play(p, a).player;
      var second := Play(first, b).player;
      && first.current == Some(|p.sources|)
      && second.current == Some(|p.sources| + 1)
      && second.sources[|p.sources|].state == Stopped
      && second.sources[|p.sources| + 1].state == Playing
      && second.isPlaying
  {
  }

  /** After the unmount cleanup, a later `play` makes a new context: a closed one is never reused. */
  lemma PlayAfterTeardownMakesNewContext(p: Player, a: string)
    requires Valid(p) && p.context.Some?
    ensures var q := Play(Teardown(p), a).player;
      q.context.Some? && q.context.value.id == p.contextsCreated && !q.context.value.closed
  {
  }

  /** A payload that `atob` rejects makes `play` fail, leaving `isPlaying` as it was. */
  lemma BadPayloadRejected(p: Player)
    requires Valid(p)
    ensures Play(p, "not-base64!!").failure == Some(DecodeFailed(Base64.InvalidCharacterError))
    ensures Play(p, "not-base64!!").player.isPlaying == p.isPlaying
  {
    Base64.RejectsForeignCharacter();
  }

  /** The example payload of the audio service plays. */
  lemma ExamplePlayable()
    ensures Playable("AAD/fwCA")
  {
    Pcm.ExamplePayload();
    PlayableDecoded("AAD/fwCA", [0, 0, 0xFF, 0x7F, 0, 0x80]);
  }

  lemma PlayableDecoded(base64Audio: string, bytes: seq<Base64.byte>)
    requires Base64.Decode(base64Audio) == Success(bytes) && |bytes| == 6
    ensures Playable(base64Audio)
  {
  }

  // ---------------------------------------------------------------------
  // The stale "ended" event.

  /** Only the source the reference holds can be playing, and `isPlaying` tells whether it holds one. */
  predicate Consistent(p: Player) {
    && Valid(p)
    && (p.isPlaying <==> p.current.Some?)
    && forall id :: 0 <= id < |p.sources| && p.sources[id].state == Playing ==> p.current == Some(id)
  }

  /**
    As written, the "ended" event of a source that an earlier `play` stopped
    clears the reference to the newer source that is still playing: the
    hook then reports not playing, `stop` can no longer reach the audible
    source, and the next `play` starts a second source beside it.
   */
  lemma StaleEndedOrphansNewerSource(p: Player, a: string, b: string)
    requires Consistent(p) && Playable(a) && Playable(b)
    ensures var first := Play(p, a).player;
      var second := Play(first, b).player;
      var orphaned := Ended(second, |p.sources|);
      var third := Play(orphaned, a).player;
      && Consistent(second)
      && CanEnd(second, |p.sources|)
      && orphaned.sources[|p.sources| + 1].state == Playing
      && !orphaned.isPlaying && orphaned.current.None?
      && !Consistent(orphaned)
      && Stop(orphaned) == orphaned
      && third.sources[|p.sources| + 1].state == Playing
      && third.sources[|p.sources| + 2].state == Playing
  {
    var n := |p.sources|;
    PlayedTwice(p, a, b);
    var second := Play(Play(p, a).player, b).player;
    OrphanedByStaleEnded(second, n);
    PlayBesideOrphan(Ended(second, n), a, n + 1);
  }

  /** Two successful plays: the first source is stopped but not ended, the second plays and is current. */
  lemma PlayedTwice(p: Player, a: string, b: string)
    requires Consistent(p) && Playable(a) && Playable(b)
    ensures var second := Play(Play(p, a).player, b).player;
      && Consistent(second) && |second.sources| == |p.sources| + 2
      && second.sources[|p.sources|].state == Stopped
      && second.sources[|p.sources| + 1].state == Playing
      && second.current == Some(|p.sources| + 1)
  {
    var first := Play(p, a).player;
    PlayKeepsConsistent(p, a);
    PlayKeepsConsistent(first, b);
    assert first.sources[|p.sources|].state == Playing;
  }

  /** The stale event of the stopped source drops the reference to the one still playing. */
  lemma OrphanedByStaleEnded(q: Player, n: nat)
    requires Valid(q) && |q.sources| == n + 2 && q.sources[n].state == Stopped
    requires q.sources[n + 1].state == Playing && q.current == Some(n + 1)
    ensures CanEnd(q, n)
    ensures var o := Ended(q, n);
      && o.sources[n + 1].state == Playing && !o.isPlaying && o.current.None?
      && !Consistent(o) && Stop(o) == o
  {
    var o := Ended(q, n);
    assert o.sources[n + 1] == q.sources[n + 1];
  }

  /** A `play` with no current reference stops nothing: a source already playing keeps playing beside the new one. */
  lemma PlayBesideOrphan(o: Player, a: string, k: nat)
    requires Valid(o) && Playable(a) && o.current.None? && k < |o.sources| && o.sources[k].state == Playing
    ensures var t := Play(o, a).player;
      t.sources[k].state == Playing && t.sources[|o.sources|].state == Playing
  {
  }

  /**
    The evident intent of the `onended` handler: forget the source only if
    it is still the current one.
   */
  function EndedGuarded(p: Player, id: nat): (r: Player)
    requires Valid(p) && CanEnd(p, id)
    ensures Valid(r)
    ensures r.context == p.context && |r.sources| == |p.sources|
    ensures r.sources[id].state == Finished
    ensures forall j :: 0 <= j < |p.sources| && j != id ==> r.sources[j] == p.sources[j]
    ensures p.current == Some(id) ==> !r.isPlaying && r.current.None?
    ensures p.current != Some(id) ==> r.isPlaying == p.isPlaying && r.current == p.current
  {
    var finished := p.sources[id := p.sources[id].(state := Finished)];
    if p.current == Some(id) then p.(sources := finished, current := None, isPlaying := false)
    else p.(sources := finished)
  }

  /** What can happen to the controller: its two calls, a source's "ended" event and unmounting. */
  datatype Event = PlayRequest(base64Audio: string) | StopRequest | SourceEnded(id: nat) | Unmount

  predicate CanHappen(p: Player, e: Event) {
    e.SourceEnded? ==> CanEnd(p, e.id)
  }

  /**
    One event handled by the corrected controller. Sources are never
    forgotten, only a successful `play` adds one (and makes it current),
    `stop` and unmounting leave the reference and `isPlaying` alone, and
    only `play` and unmounting change the context.
   */
  function Dispatch(p: Player, e: Event): (r: Player)
    requires Valid(p) && CanHappen(p, e)
    ensures Valid(r)
    ensures |r.sources| >= |p.sources|
    ensures |r.sources| > |p.sources| ==> e.PlayRequest? && r.current == Some(|p.sources|) && r.isPlaying
    ensures e.StopRequest? || e.Unmount? ==> r.current == p.current && r.isPlaying == p.isPlaying
    ensures r.context != p.context ==> e.PlayRequest? || e.Unmount?
  {
    match e
    case PlayRequest(b) => Play(p, b).player
    case StopRequest => Stop(p)
    case SourceEnded(id) => EndedGuarded(p, id)
    case Unmount => Teardown(p)
  }

  /** With the corrected handler, every event keeps the controller consistent: at most one source is ever audible. */
  lemma DispatchKeepsConsistent(p: Player, e: Event)
    requires Consistent(p) && CanHappen(p, e)
    ensures Consistent(Dispatch(p, e))
  {
    match e
    case PlayRequest(b) => PlayKeepsConsistent(p, b);
    case StopRequest => StopKeepsConsistent(p);
    case SourceEnded(id) => EndedGuardedKeepsConsistent(p, id);
    case Unmount => TeardownKeepsConsistent(p);
  }

  lemma PlayKeepsConsistent(p: Player, b: string)
    requires Consistent(p)
    ensures Consistent(Play(p, b).player)
  {
    var r := Play(p, b);
    PlayOutcomeConsistent(p, r.player, r.failure.None?);
  }

  /** What `play` promises about its outcome is enough for the invariant. */
  lemma PlayOutcomeConsistent(p: Player, r: Player, started: bool)
    requires Consistent(p) && Valid(r) && |r.sources| >= |p.sources|
    requires p.current.Some? ==> r.sources[p.current.value].state != Playing
    requires forall id :: 0 <= id < |p.sources| && Some(id) != p.current ==> r.sources[id] == p.sources[id]
    requires started ==> |r.sources| == |p.sources| + 1 && r.current == Some(|p.sources|) && r.isPlaying
    requires !started ==> |r.sources| == |p.sources| && r.current == p.current && r.isPlaying == p.isPlaying
    ensures Consistent(r)
  {
    forall id | 0 <= id < |r.sources| && r.sources[id].state == Playing
      ensures r.current == Some(id)
    {
      if id < |p.sources| && Some(id) != p.current {
        assert r.sources[id] == p.sources[id];
      }
    }
  }

  lemma StopKeepsConsistent(p: Player)
    requires Consistent(p)
    ensures Consistent(Stop(p))
  {
  }

  lemma EndedGuardedKeepsConsistent(p: Player, id: nat)
    requires Consistent(p) && CanEnd(p, id)
    ensures Consistent(EndedGuarded(p, id))
  {
  }

  lemma TeardownKeepsConsistent(p: Player)
    requires Consistent(p)
    ensures Consistent(Teardown(p))
  {
  }

  /** With the corrected handler, every run of events keeps the controller consistent. */
  function Run(p: Player, events: seq<Event>): (r: Option<Player>)
    requires Consistent(p)
    ensures r.Some? ==> Consistent(r.value)
    decreases |events|
  {
    if |events| == 0 then Some(p)
    else if !CanHappen(p, events[0]) then None
    else
      DispatchKeepsConsistent(p, events[0]);
      Run(Dispatch(p, events[0]), events[1..])
  }

  // ---------------------------------------------------------------------
  // The hook as written, called the way the page calls it.

  /**
    The shape the controller as written keeps when `play` is only called
    while `isPlaying` is false, as the page's controls do: every source
    other than the current one has ended, and `isPlaying` tells whether
    there is a current one.
   */
  predicate Tidy(p: Player) {
    && Valid(p)
    && (p.isPlaying <==> p.current.Some?)
    && forall id :: 0 <= id < |p.sources| && Some(id) != p.current ==> p.sources[id].state == Finished
  }

  lemma TidyIsConsistent(p: Player)
    requires Tidy(p)
    ensures Consistent(p)
  {
  }

  /** Once every other source has ended, only the current source can send "ended", so the handler as written does what the corrected one does. */
  lemma EndedAgreesWhenTidy(p: Player, id: nat)
    requires Tidy(p) && CanEnd(p, id)
    ensures p.current == Some(id)
    ensures Ended(p, id) == EndedGuarded(p, id)
  {
  }

  lemma PlayWhenIdleKeepsTidy(p: Player, b: string)
    requires Tidy(p) && !p.isPlaying
    ensures Tidy(Play(p, b).player)
  {
    var r := Play(p, b).player;
    forall id | 0 <= id < |r.sources| && Some(id) != r.current
      ensures r.sources[id].state == Finished
    {
      if id < |p.sources| {
        assert r.sources[id] == p.sources[id];
      }
    }
  }

  lemma StopKeepsTidy(p: Player)
    requires Tidy(p)
    ensures Tidy(Stop(p))
  {
    var r := Stop(p);
    forall id | 0 <= id < |r.sources| && Some(id) != r.current
      ensures r.sources[id].state == Finished
    {
      assert r.sources[id] == p.sources[id];
    }
  }

  lemma EndedKeepsTidy(p: Player, id: nat)
    requires Tidy(p) && CanEnd(p, id)
    ensures Tidy(Ended(p, id))
  {
    var r := Ended(p, id);
    forall j | 0 <= j < |r.sources| && Some(j) != r.current
      ensures r.sources[j].state == Finished
    {
      if j != id {
        assert r.sources[j] == p.sources[j];
      }
    }
  }

  lemma TeardownKeepsTidy(p: Player)
    requires Tidy(p)
    ensures Tidy(Teardown(p))
  {
    var r := Teardown(p);
    forall id | 0 <= id < |r.sources| && Some(id) != r.current
      ensures r.sources[id].state == Finished
    {
      assert r.sources[id] == p.sources[id];
    }
  }
}
