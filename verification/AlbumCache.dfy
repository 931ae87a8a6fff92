/** The album part of the cache: three kinds of key, the commands the repository sends,
    and what a sequence of commands leaves behind. */
module AlbumCache {
  import opened Wrappers
  import opened Uuids
  import opened AlbumTable

  datatype Key =
    | EntityKey(id: Uuid)
    | SlugKey(userID: Uuid, slug: string)
    | TokenKey(token: Uuid)

  datatype Value = Json(album: Album) | Text(id: Uuid)

  type Cache = map<Key, Value>

  datatype Command = Set(key: Key, value: Value) | Unlink(keys: set<Key>)

  function SetAlbum(a: Album): seq<Command> {
    [Set(EntityKey(a.id), Json(a)), Set(SlugKey(a.userID, a.slug), Text(a.id))]
    + if a.directToken.Some? then [Set(TokenKey(a.directToken.value), Text(a.id))] else []
  }

  function InvalidateAlbum(a: Album): seq<Command> {
    [Unlink({EntityKey(a.id), SlugKey(a.userID, a.slug)})]
    + if a.directToken.Some? then [Unlink({TokenKey(a.directToken.value)})] else []
  }

  function Exec(c: Cache, cmd: Command): Cache {
    match cmd
    case Set(key, value) => c[key := value]
    case Unlink(keys) => c - keys
  }

  /** The cache after all of `cmds`, in order. */
  function Drain(c: Cache, cmds: seq<Command>): Cache {
    if cmds == [] then c else Exec(Drain(c, cmds[..|cmds| - 1]), cmds[|cmds| - 1])
  }

  function Look(c: Cache, key: Key): Option<Value> {
    if key in c then Some(c[key]) else None
  }

  predicate Touches(cmd: Command, key: Key) {
    match cmd
    case Set(k, _) => k == key
    case Unlink(keys) => key in keys
  }

  predicate Untouched(cmds: seq<Command>, key: Key) {
    forall i :: 0 <= i < |cmds| ==> !Touches(cmds[i], key)
  }

  /** What the last command on a key leaves there; None when no command touches it. */
  function LastEffect(cmds: seq<Command>, key: Key): Option<Option<Value>> {
    if cmds == [] then None else
      var last := cmds[|cmds| - 1];
      if !Touches(last, key) then LastEffect(cmds[..|cmds| - 1], key)
      else if last.Set? then Some(Some(last.value)) else Some(None)
  }

  /** A key ends as its last command leaves it, or as it was. */
  lemma {:induction false} DrainAt(c: Cache, cmds: seq<Command>, key: Key)
    ensures Look(Drain(c, cmds), key)
         == match LastEffect(cmds, key) { case None => Look(c, key) case Some(v) => v }
  {
    if cmds != [] {
      DrainAt(c, cmds[..|cmds| - 1], key);
    }
  }

  lemma SameCache(c: Cache, d: Cache)
    requires forall key :: Look(c, key) == Look(d, key)
    ensures c == d
  {
    assert forall key :: key in c <==> Look(c, key).Some?;
    assert forall key :: key in d <==> Look(d, key).Some?;
    forall key | key in c
      ensures c[key] == d[key]
    {
      assert Look(c, key) == Look(d, key);
    }
  }

  lemma {:induction false} LastEffectConcat(a: seq<Command>, b: seq<Command>, key: Key)
    ensures LastEffect(a + b, key) == if LastEffect(b, key).Some? then LastEffect(b, key) else LastEffect(a, key)
    decreases |b|
  {
    if b == [] {
      assert a + b == a;
    } else {
      LastEffectConcat(a, b[..|b| - 1], key);
      assert (a + b)[..|a + b| - 1] == a + b[..|b| - 1];
    }
  }

  lemma {:induction false} LastEffectUntouched(cmds: seq<Command>, key: Key)
    ensures LastEffect(cmds, key).None? <==> Untouched(cmds, key)
  {
    if cmds != [] {
      var init := cmds[..|cmds| - 1];
      LastEffectUntouched(init, key);
      assert cmds == init + [cmds[|cmds| - 1]];
    }
  }

  lemma {:induction false} DrainConcat(c: Cache, a: seq<Command>, b: seq<Command>)
    ensures Drain(c, a + b) == Drain(Drain(c, a), b)
    decreases |b|
  {
    if b == [] {
      assert a + b == a;
    } else {
      DrainConcat(c, a, b[..|b| - 1]);
      assert (a + b)[..|a + b| - 1] == a + b[..|b| - 1];
    }
  }

  /** Whatever the cache holds before, both sequences lead to the same cache. */
  ghost predicate SameOutcome(s: seq<Command>, t: seq<Command>) {
    forall c: Cache :: Drain(c, s) == Drain(c, t)
  }

  /** On every key the last commands of both sequences leave the same thing. */
  ghost predicate SameLastEffects(s: seq<Command>, t: seq<Command>) {
    forall key :: LastEffect(s, key) == LastEffect(t, key)
  }

  lemma SameEffects(c: Cache, s: seq<Command>, t: seq<Command>)
    requires SameLastEffects(s, t)
    ensures Drain(c, s) == Drain(c, t)
  {
    forall key
      ensures Look(Drain(c, s), key) == Look(Drain(c, t), key)
    {
      DrainAt(c, s, key);
      DrainAt(c, t, key);
    }
    SameCache(Drain(c, s), Drain(c, t));
  }

  /** Schedule independence, exactly. */
  lemma ScheduleIndependence(s: seq<Command>, t: seq<Command>)
    ensures SameOutcome(s, t) <==> SameLastEffects(s, t)
  {
    if SameLastEffects(s, t) {
      forall c: Cache
        ensures Drain(c, s) == Drain(c, t)
      {
        SameEffects(c, s, t);
      }
    }
    if SameOutcome(s, t) {
      forall key
        ensures LastEffect(s, key) == LastEffect(t, key)
      {
        // The empty cache and one holding the key tell "untouched" from every effect.
        var empty: Cache := map[];
        var held: Cache := map[key := Text(0)];
        DrainAt(empty, s, key);
        DrainAt(empty, t, key);
        DrainAt(held, s, key);
        DrainAt(held, t, key);
      }
    }
  }

  /** The commands that touch one key, in order. */
  function OnKey(cmds: seq<Command>, key: Key): seq<Command> {
    if cmds == [] then [] else
      var rest := OnKey(cmds[..|cmds| - 1], key);
      if Touches(cmds[|cmds| - 1], key) then rest + [cmds[|cmds| - 1]] else rest
  }

  lemma {:induction false} LastEffectOnKey(cmds: seq<Command>, key: Key)
    ensures LastEffect(OnKey(cmds, key), key) == LastEffect(cmds, key)
  {
    if cmds != [] {
      var init, last := cmds[..|cmds| - 1], cmds[|cmds| - 1];
      LastEffectOnKey(init, key);
      if Touches(last, key) {
        var p := OnKey(init, key) + [last];
        assert p[..|p| - 1] == OnKey(init, key);
      }
    }
  }

  /** Any schedule that keeps the relative order of the commands sharing a key ends in
      the cache of commit order. */
  lemma KeyOrderSuffices(c: Cache, commit: seq<Command>, schedule: seq<Command>)
    requires forall key :: OnKey(commit, key) == OnKey(schedule, key)
    ensures Drain(c, schedule) == Drain(c, commit)
  {
    forall key
      ensures LastEffect(schedule, key) == LastEffect(commit, key)
    {
      LastEffectOnKey(commit, key);
      LastEffectOnKey(schedule, key);
    }
    SameEffects(c, schedule, commit);
  }

  /** No command before position `i` shares a key with command `i`. */
  ghost predicate Foremost(cmds: seq<Command>, i: nat)
    requires i < |cmds|
  {
    forall key :: Touches(cmds[i], key) ==> Untouched(cmds[..i], key)
  }

  /** Executing such a command early does not change where the commands lead. */
  lemma RunForemost(c: Cache, cmds: seq<Command>, i: nat)
    requires i < |cmds| && Foremost(cmds, i)
    ensures Drain(Exec(c, cmds[i]), cmds[..i] + cmds[i + 1..]) == Drain(c, cmds)
  {
    var early := [cmds[i]] + (cmds[..i] + cmds[i + 1..]);
    forall key
      ensures LastEffect(early, key) == LastEffect(cmds, key)
    {
      LastEffectConcat([cmds[i]], cmds[..i] + cmds[i + 1..], key);
      LastEffectConcat(cmds[..i], cmds[i + 1..], key);
      assert cmds == cmds[..i] + ([cmds[i]] + cmds[i + 1..]);
      LastEffectConcat(cmds[..i], [cmds[i]] + cmds[i + 1..], key);
      LastEffectConcat([cmds[i]], cmds[i + 1..], key);
      LastEffectUntouched([cmds[i]], key);
      LastEffectUntouched(cmds[..i], key);
    }
    SameEffects(c, early, cmds);
    DrainConcat(c, [cmds[i]], cmds[..i] + cmds[i + 1..]);
    assert Drain(c, [cmds[i]]) == Exec(Drain(c, []), cmds[i]);
  }

  /** Keys may vanish before the pending commands run; the outcome only loses keys. */
  lemma DrainAfterLoss(c: Cache, lost: set<Key>, cmds: seq<Command>, key: Key)
    ensures Look(Drain(c - lost, cmds), key) == Look(Drain(c, cmds), key)
         || Look(Drain(c - lost, cmds), key) == None
  {
    DrainAt(c, cmds, key);
    DrainAt(c - lost, cmds, key);
  }

  lemma DrainSnoc(c: Cache, cmds: seq<Command>, cmd: Command)
    ensures Drain(c, cmds + [cmd]) == Exec(Drain(c, cmds), cmd)
  {
    var all := cmds + [cmd];
    assert all[..|all| - 1] == cmds;
  }

  lemma SetAlbumEffect(c: Cache, a: Album)
    ensures var d := c[EntityKey(a.id) := Json(a)][SlugKey(a.userID, a.slug) := Text(a.id)];
            Drain(c, SetAlbum(a))
            == if a.directToken.Some? then d[TokenKey(a.directToken.value) := Text(a.id)] else d
  {
    var entity, slug := Set(EntityKey(a.id), Json(a)), Set(SlugKey(a.userID, a.slug), Text(a.id));
    DrainSnoc(c, [], entity);
    DrainSnoc(c, [] + [entity], slug);
    if a.directToken.Some? {
      var token := Set(TokenKey(a.directToken.value), Text(a.id));
      DrainSnoc(c, [] + [entity] + [slug], token);
      assert SetAlbum(a) == [] + [entity] + [slug] + [token];
    } else {
      assert SetAlbum(a) == [] + [entity] + [slug];
    }
  }

  lemma InvalidateAlbumEffect(c: Cache, a: Album)
    ensures var d := c - {EntityKey(a.id), SlugKey(a.userID, a.slug)};
            Drain(c, InvalidateAlbum(a)) == if a.directToken.Some? then d - {TokenKey(a.directToken.value)} else d
  {
    var entity := Unlink({EntityKey(a.id), SlugKey(a.userID, a.slug)});
    DrainSnoc(c, [], entity);
    if a.directToken.Some? {
      var token := Unlink({TokenKey(a.directToken.value)});
      DrainSnoc(c, [] + [entity], token);
      assert InvalidateAlbum(a) == [] + [entity] + [token];
    } else {
      assert InvalidateAlbum(a) == [] + [entity];
    }
  }
}
