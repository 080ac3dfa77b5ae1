/** Names of counter batches (utils/strings.py). A live group is called by its own name;
    a batch on its way through the retry ladder is `group-identifier-version`. */
module RetryNames {
  import opened Wrappers
  import opened Text

  const INTERNAL_NAME_SEPARATOR := '-'
  const NAME_SEPARATOR := ':'

  datatype Metadata = Metadata(group: string, identifier: Option<string>, version: nat)

  /** generate_retry_batch_name once the identifier is known. */
  function Generate(group: string, version: nat, identifier: string): string {
    Join([group, identifier, Dec(version)], INTERNAL_NAME_SEPARATOR)
  }

  /** extract_batch_metadata; None is the ValueError of `int(split[2])`. */
  function Extract(batch: string): Option<Metadata> {
    var split := Split(batch, INTERNAL_NAME_SEPARATOR);
    if |split| != 3 then Some(Metadata(split[0], None, 0))
    else
      match ParseNat(split[2])
      case None => None
      case Some(v) => Some(Metadata(split[0], Some(split[1]), v))
  }

  /** bump_retry_counter; None is either ValueError (unpacking or `int`). */
  function Bump(batch: string): Option<string> {
    var split := Split(batch, INTERNAL_NAME_SEPARATOR);
    if |split| != 3 then None
    else
      match ParseNat(split[2])
      case None => None
      case Some(v) => Some(Join([split[0], split[1], Dec(v + 1)], INTERNAL_NAME_SEPARATOR))
  }

  lemma DecFree(n: nat)
    ensures Free(Dec(n), INTERNAL_NAME_SEPARATOR) && ParseNat(Dec(n)) == Some(n)
  {
    DecRoundTrip(n);
  }

  lemma SplitGenerated(group: string, version: nat, identifier: string)
    ensures Split(Generate(group, version, identifier), INTERNAL_NAME_SEPARATOR) == [group, identifier, Dec(version)]
            <==> Free(group, INTERNAL_NAME_SEPARATOR) && Free(identifier, INTERNAL_NAME_SEPARATOR)
  {
    var parts := [group, identifier, Dec(version)];
    DecFree(version);
    SplitJoin(parts, INTERNAL_NAME_SEPARATOR);
    assert parts[0] == group && parts[1] == identifier && parts[2] == Dec(version);
  }

  /** A generated name gives back all three of its parts exactly when the group and the
      identifier are free of the separator. */
  lemma RoundTrip(group: string, version: nat, identifier: string)
    ensures Extract(Generate(group, version, identifier)) == Some(Metadata(group, Some(identifier), version))
            <==> Free(group, INTERNAL_NAME_SEPARATOR) && Free(identifier, INTERNAL_NAME_SEPARATOR)
  {
    SplitGenerated(group, version, identifier);
    DecFree(version);
    var name := Generate(group, version, identifier);
    if Extract(name) == Some(Metadata(group, Some(identifier), version)) {
      SplitFree(name, INTERNAL_NAME_SEPARATOR);
      var split := Split(name, INTERNAL_NAME_SEPARATOR);
      assert split[0] == group && split[1] == identifier;
    }
  }

  /** A live group's name reads as the group itself at version 0. */
  lemma LiveName(group: string)
    requires Free(group, INTERNAL_NAME_SEPARATOR)
    ensures Extract(group) == Some(Metadata(group, None, 0))
  {
    SplitWhole(group, INTERNAL_NAME_SEPARATOR);
  }

  /** Bumping a generated name is generating the next version. */
  lemma BumpGenerated(group: string, version: nat, identifier: string)
    requires Free(group, INTERNAL_NAME_SEPARATOR) && Free(identifier, INTERNAL_NAME_SEPARATOR)
    ensures Bump(Generate(group, version, identifier)) == Some(Generate(group, version + 1, identifier))
  {
    SplitGenerated(group, version, identifier);
    DecFree(version);
  }

  /** derive_cache_key. */
  function CacheKey(resource: string, id: nat): string {
    Join([resource, Dec(id)], NAME_SEPARATOR)
  }

  /** The row id that _database_normalize_cache_normalized_counter_data reads from a cache
      key; None is the IndexError or the ValueError. */
  function RowId(key: string): Option<nat> {
    var split := Split(key, NAME_SEPARATOR);
    if |split| < 2 then None else ParseNat(split[1])
  }

  lemma RowIdOfCacheKey(resource: string, id: nat)
    requires Free(resource, NAME_SEPARATOR)
    ensures RowId(CacheKey(resource, id)) == Some(id)
  {
    var parts := [resource, Dec(id)];
    DecRoundTrip(id);
    SplitJoin(parts, NAME_SEPARATOR);
  }

  /** IntentUpdate.intent_value: compare-and-delete tests these strings for equality, which
      is equality of flag and id as long as ids hold no separator. */
  function IntentValue(flag: string, id: string): string {
    Join([flag, id], NAME_SEPARATOR)
  }

  /** The names as they are written. */
  lemma NamesAsText(group: string, version: nat, identifier: string, resource: string, id: nat, flag: string, uid: string)
    ensures Generate(group, version, identifier) == group + "-" + identifier + "-" + Dec(version)
    ensures CacheKey(resource, id) == resource + ":" + Dec(id)
    ensures IntentValue(flag, uid) == flag + ":" + uid
    ensures forall d | 0 <= d < 10 :: Dec(d) == ["0123456789"[d]]
  {
    JoinTwo(resource, Dec(id));
    JoinTwo(flag, uid);
    var parts := [group, identifier, Dec(version)];
    var rest := [identifier, Dec(version)];
    assert parts[1..] == rest && rest[1..] == [Dec(version)];
    assert Join(rest, INTERNAL_NAME_SEPARATOR) == identifier + [INTERNAL_NAME_SEPARATOR] + Dec(version);
    assert Join(parts, INTERNAL_NAME_SEPARATOR) == group + [INTERNAL_NAME_SEPARATOR] + Join(rest, INTERNAL_NAME_SEPARATOR);
    forall d | 0 <= d < 10
      ensures Dec(d) == ["0123456789"[d]]
    {
      assert d in {0, 1, 2, 3, 4, 5, 6, 7, 8, 9};
    }
  }

  lemma JoinTwo(p: string, q: string)
    ensures Join([p, q], NAME_SEPARATOR) == p + [NAME_SEPARATOR] + q
  {
  }

  lemma IntentValueInjective(f: string, i: string, g: string, j: string)
    requires Free(i, NAME_SEPARATOR) && Free(j, NAME_SEPARATOR)
    ensures IntentValue(f, i) == IntentValue(g, j) <==> f == g && i == j
  {
    var a, b := f + [NAME_SEPARATOR] + i, g + [NAME_SEPARATOR] + j;
    JoinTwo(f, i);
    JoinTwo(g, j);
    if a == b {
      LastSeparator(f, i, g, j);
      LastSeparator(g, j, f, i);
      assert f == a[..|f|] == b[..|g|] == g;
      assert i == a[|f| + 1..] == b[|g| + 1..] == j;
    }
  }

  lemma LastSeparator(f: string, i: string, g: string, j: string)
    requires Free(j, NAME_SEPARATOR) && f + [NAME_SEPARATOR] + i == g + [NAME_SEPARATOR] + j
    ensures |f| <= |g|
  {
    assert (f + [NAME_SEPARATOR] + i)[|f|] == NAME_SEPARATOR;
    if |g| < |f| {
      assert false;
    }
  }
}
