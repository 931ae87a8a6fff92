/** The one string-keyed store behind the cache, the text of its keys, and the proof that
    commands on it act as commands on the typed keys of the album cache. */
module CacheStore {
  import opened Wrappers
  import opened Uuids
  import opened AlbumTable
  import opened AlbumCache
  import Runs = AlbumRuns

  const ENTITY_PREFIX := "c:a:"
  const MAPPER_PREFIX := "c:a_m:"
  const TOKEN_PREFIX := "c:a_dtm:"

  /** A stored value: an album as JSON, or plain text. */
  datatype Stored = Document(album: Album) | Plain(text: string)

  type Store = map<string, Stored>

  function KeyText(key: Key): string {
    match key
    case EntityKey(id) => ENTITY_PREFIX + ToString(id)
    case SlugKey(userID, slug) => MAPPER_PREFIX + ToString(userID) + ":" + slug
    case TokenKey(token) => TOKEN_PREFIX + ToString(token)
  }

  function Encode(v: Value): Stored {
    match v
    case Json(a) => Document(a)
    case Text(id) => Plain(ToString(id))
  }

  /** Reading a value into an album fails on plain text. */
  function ParseAlbum(v: Stored): Option<Album> {
    if v.Document? then Some(v.album) else None
  }

  /** The fourth and fifth characters tell the three kinds of key apart. */
  lemma KindFromText(k: Key)
    ensures var t := KeyText(k);
            |t| > 4 && (k.EntityKey? <==> t[3] == ':') && (!k.EntityKey? ==> (k.SlugKey? <==> t[4] == 'm'))
  {
    match k
    case EntityKey(_) => assert KeyText(k)[3] == ENTITY_PREFIX[3] == ':';
    case SlugKey(_, _) => assert KeyText(k)[3] == MAPPER_PREFIX[3] == '_' && KeyText(k)[4] == MAPPER_PREFIX[4] == 'm';
    case TokenKey(_) => assert KeyText(k)[3] == TOKEN_PREFIX[3] == '_' && KeyText(k)[4] == TOKEN_PREFIX[4] == 'd';
  }

  lemma CancelPrefix(p: string, q: string, s: string, t: string)
    requires |p| == |q| && p + s == q + t
    ensures p == q && s == t
  {
    assert p == (p + s)[..|p|] && q == (q + t)[..|q|];
    assert s == (p + s)[|p|..] && t == (q + t)[|q|..];
  }

  /** Different keys have different texts. The slug is last and everything before it has
      a fixed length, so even a slug with colons in it does no harm. */
  lemma KeyTextInjective(j: Key, k: Key)
    requires KeyText(j) == KeyText(k)
    ensures j == k
  {
    KindFromText(j);
    KindFromText(k);
    match j
    case EntityKey(id) =>
      CancelPrefix(ENTITY_PREFIX, ENTITY_PREFIX, ToString(id), ToString(k.id));
      ToStringInjective(id, k.id);
    case TokenKey(token) =>
      CancelPrefix(TOKEN_PREFIX, TOKEN_PREFIX, ToString(token), ToString(k.token));
      ToStringInjective(token, k.token);
    case SlugKey(userID, slug) =>
      CancelPrefix(MAPPER_PREFIX + ToString(userID) + ":", MAPPER_PREFIX + ToString(k.userID) + ":", slug, k.slug);
      CancelPrefix(MAPPER_PREFIX + ToString(userID), MAPPER_PREFIX + ToString(k.userID), ":", ":");
      CancelPrefix(MAPPER_PREFIX, MAPPER_PREFIX, ToString(userID), ToString(k.userID));
      ToStringInjective(userID, k.userID);
  }

  lemma TextsOf(j: Key, k: Key)
    ensures (set x | x in {j} :: KeyText(x)) == {KeyText(j)}
    ensures (set x | x in {j, k} :: KeyText(x)) == {KeyText(j), KeyText(k)}
  {
    assert j in {j} && j in {j, k} && k in {j, k};
  }

  /** The store and the typed cache have the same thing under a key. */
  predicate Same(store: Store, c: Cache, key: Key) {
    if key in c then KeyText(key) in store && store[KeyText(key)] == Encode(c[key]) else KeyText(key) !in store
  }

  /** The store holds the typed cache under its key texts, and possibly other things
      under other keys. */
  ghost predicate Represents(store: Store, c: Cache) {
    forall key :: Same(store, c, key)
  }

  lemma SetSimulates(store: Store, c: Cache, key: Key, v: Value)
    requires Represents(store, c)
    ensures Represents(store[KeyText(key) := Encode(v)], Exec(c, Set(key, v)))
  {
    hide KeyText, Encode;
    var store', c' := store[KeyText(key) := Encode(v)], Exec(c, Set(key, v));
    forall k
      ensures Same(store', c', k)
    {
      assert Same(store, c, k);
      if KeyText(k) == KeyText(key) {
        KeyTextInjective(k, key);
      }
    }
  }

  lemma UnlinkSimulates(store: Store, c: Cache, keys: set<Key>, texts: set<string>)
    requires Represents(store, c) && texts == set k | k in keys :: KeyText(k)
    ensures Represents(store - texts, Exec(c, Unlink(keys)))
  {
    hide KeyText, Encode;
    var store', c' := store - texts, Exec(c, Unlink(keys));
    forall k
      ensures Same(store', c', k)
    {
      assert Same(store, c, k);
      if KeyText(k) in texts {
        var j :| j in keys && KeyText(j) == KeyText(k);
        KeyTextInjective(j, k);
      }
    }
  }

  /** The prefixes of the other keys in the store: users by id, users by slug, and the
      counters of the rate limiter. */
  const OTHER_PREFIXES: set<string> := {"c:u:", "c:u_m:", "rate_limit:"}

  /** Whatever the rest of the program does under its own keys leaves the album keys as
      they are. */
  lemma OtherKeysApart(store: Store, c: Cache, prefix: string, rest: string, v: Stored)
    requires Represents(store, c) && prefix in OTHER_PREFIXES
    ensures Represents(store[prefix + rest := v], c) && Represents(store - {prefix + rest}, c)
  {
    var text := prefix + rest;
    assert text[2] == prefix[2];
    var set', unset := store[text := v], store - {text};
    forall key: Key
      ensures Same(set', c, key) && Same(unset, c, key)
    {
      assert Same(store, c, key);
      ThirdCharacter(key);
    }
  }

  lemma ThirdCharacter(k: Key)
    ensures |KeyText(k)| > 2 && KeyText(k)[2] == 'a'
  {
    match k
    case EntityKey(_) => assert KeyText(k)[2] == ENTITY_PREFIX[2];
    case SlugKey(_, _) => assert KeyText(k)[2] == MAPPER_PREFIX[2];
    case TokenKey(_) => assert KeyText(k)[2] == TOKEN_PREFIX[2];
  }

  datatype ScriptReply = NotFound | Nil | Reply(value: Stored)

  /** The mapper script: the text under the mapper key, appended to the entity prefix, is
      the key of the answer. A document under a mapper key names no entity. */
  function MapperScript(store: Store, mapperKey: string, entityPrefix: string): ScriptReply {
    if mapperKey !in store then NotFound
    else if store[mapperKey].Document? then Nil
    else
      var entityKey := entityPrefix + store[mapperKey].text;
      if entityKey in store then Reply(store[entityKey]) else Nil
  }

  /** The script on key texts finds what the typed two-hop lookup finds. */
  lemma ScriptSimulates(store: Store, c: Cache, mapper: Key)
    requires Represents(store, c)
    ensures var reply := MapperScript(store, KeyText(mapper), ENTITY_PREFIX);
            Runs.CachedByMapper(c, mapper) == if reply.Reply? then ParseAlbum(reply.value) else None
    ensures MapperScript(store, KeyText(mapper), ENTITY_PREFIX).NotFound? <==> mapper !in c
  {
    assert Same(store, c, mapper);
    if mapper in c && c[mapper].Text? {
      var id := c[mapper].id;
      assert KeyText(EntityKey(id)) == ENTITY_PREFIX + ToString(id);
      assert Same(store, c, EntityKey(id));
    }
  }

  /** The cache manager. */
  class Manager {
    var store: Store

    constructor ()
      ensures store == map[] && Represents(store, map[])
    {
      store := map[];
    }

    method Set(key: string, value: Stored)
      modifies this
      ensures store == old(store)[key := value]
    {
      store := store[key := value];
    }

    method Get(key: string) returns (target: Option<Album>)
      ensures target == if key in store then ParseAlbum(store[key]) else None
    {
      if key !in store {
        return None;
      }
      target := ParseAlbum(store[key]);
    }

    method Unlink(keys: set<string>)
      modifies this
      ensures store == old(store) - keys
    {
      store := store - keys;
    }

    /** One slot for each key, in the order of the keys, empty where the key is missing or
        its value does not parse. */
    method MGetItems(keys: seq<string>) returns (items: seq<Option<Album>>)
      ensures |items| == |keys|
      ensures forall i :: 0 <= i < |keys| ==> items[i] == if keys[i] in store then ParseAlbum(store[keys[i]]) else None
    {
      var result := new Option<Album>[|keys|](i => None);
      for i := 0 to |keys|
        invariant forall j :: 0 <= j < i ==> result[j] == if keys[j] in store then ParseAlbum(store[keys[j]]) else None
        invariant forall j :: i <= j < |keys| ==> result[j] == None
      {
        if keys[i] in store && store[keys[i]].Document? {
          result[i] := Some(store[keys[i]].album);
        }
      }
      items := result[..];
    }

    /** Caching an album, key text by key text, drains the typed commands. */
    method SetAlbumToCache(a: Album, ghost c: Cache)
      requires Represents(store, c)
      modifies this
      ensures Represents(store, Drain(c, SetAlbum(a)))
    {
      Set(ENTITY_PREFIX + ToString(a.id), Document(a));
      SetSimulates(old(store), c, EntityKey(a.id), Json(a));
      ghost var c1 := Exec(c, AlbumCache.Set(EntityKey(a.id), Json(a)));
      ghost var store1 := store;
      Set(MAPPER_PREFIX + ToString(a.userID) + ":" + a.slug, Plain(ToString(a.id)));
      SetSimulates(store1, c1, SlugKey(a.userID, a.slug), Text(a.id));
      ghost var c2 := Exec(c1, AlbumCache.Set(SlugKey(a.userID, a.slug), Text(a.id)));
      ghost var store2 := store;
      if a.directToken.Some? {
        Set(TOKEN_PREFIX + ToString(a.directToken.value), Plain(ToString(a.id)));
        SetSimulates(store2, c2, TokenKey(a.directToken.value), Text(a.id));
      }
      SetAlbumEffect(c, a);
    }

    method InvalidateAlbumCache(a: Album, ghost c: Cache)
      requires Represents(store, c)
      modifies this
      ensures Represents(store, Drain(c, InvalidateAlbum(a)))
    {
      UnlinkPair(EntityKey(a.id), SlugKey(a.userID, a.slug), c);
      InvalidateAlbumEffect(c, a);
      if a.directToken.Some? {
        UnlinkOne(TokenKey(a.directToken.value), c - {EntityKey(a.id), SlugKey(a.userID, a.slug)});
      }
    }

    method UnlinkPair(j: Key, k: Key, ghost c: Cache)
      requires Represents(store, c)
      modifies this
      ensures Represents(store, c - {j, k})
    {
      hide KeyText;
      Unlink({KeyText(j), KeyText(k)});
      TextsOf(j, k);
      UnlinkSimulates(old(store), c, {j, k}, {KeyText(j), KeyText(k)});
    }

    method UnlinkOne(k: Key, ghost c: Cache)
      requires Represents(store, c)
      modifies this
      ensures Represents(store, c - {k})
    {
      hide KeyText;
      Unlink({KeyText(k)});
      TextsOf(k, k);
      UnlinkSimulates(old(store), c, {k}, {KeyText(k)});
    }
  }

  /** A batch read on key texts gives the typed lookups, slot by slot. */
  lemma BatchSimulates(store: Store, c: Cache, ids: seq<Uuid>, i: nat)
    requires Represents(store, c) && i < |ids|
    ensures Runs.CachedByID(c, ids[i])
         == var text := ENTITY_PREFIX + ToString(ids[i]); if text in store then ParseAlbum(store[text]) else None
  {
    assert KeyText(EntityKey(ids[i])) == ENTITY_PREFIX + ToString(ids[i]);
    assert Same(store, c, EntityKey(ids[i]));
  }
}
