/** Cache file names for databases (internal/datasource/embedded_cache.go). */
module SnapshotNames {

  predicate SafeChar(c: char)
  {
    'a' <= c <= 'z' || 'A' <= c <= 'Z' || '0' <= c <= '9' || c == '_' || c == '-'
  }

  /** Every unsafe character becomes an underscore. */
  ghost function Masked(name: string): string
  {
    seq(|name|, i requires 0 <= i < |name| => if SafeChar(name[i]) then name[i] else '_')
  }

  ghost function Sanitized(name: string): string
  {
    if name == "" then "default" else Masked(name)
  }

  method SanitizeCacheDBName(name: string) returns (out: string)
    ensures out == Sanitized(name) && (name == "" ==> out == "default")
    ensures name != "" ==> |out| == |name| && forall i | 0 <= i < |name| ::
      var c := name[i];
      out[i] == if 'a' <= c <= 'z' || 'A' <= c <= 'Z' || '0' <= c <= '9' || c == '_' || c == '-' then c else '_'
  {
    out := "";
    for i := 0 to |name|
      invariant out == Masked(name)[..i]
    {
      if SafeChar(name[i]) {
        out := out + [name[i]];
      } else {
        out := out + ['_'];
      }
    }
    if |out| == 0 {
      out := "default";
    }
  }

  /** The cache file of a database; different names may share a file. */
  ghost function CachePath(db: string): string
  {
    "embedded-" + Sanitized(db) + ".snap"
  }

  /** A cache file name is one safe path element, and safe names keep their own. */
  lemma SanitizedIsSafe(name: string)
    ensures Sanitized(name) != "" && forall c | c in Sanitized(name) :: SafeChar(c)
    ensures name != "" && (forall c | c in name :: SafeChar(c)) ==> Sanitized(name) == name
    ensures Sanitized(Sanitized(name)) == Sanitized(name)
  {
    if name != "" {
      forall c | c in Masked(name) ensures SafeChar(c) {
        var i :| 0 <= i < |name| && Masked(name)[i] == c;
      }
    }
  }

  /** Databases share a cache file exactly when their sanitized names agree. */
  lemma SamePathIff(a: string, b: string)
    ensures CachePath(a) == CachePath(b) <==> Sanitized(a) == Sanitized(b)
  {
    var p, n, m := "embedded-", |Sanitized(a)|, |Sanitized(b)|;
    assert CachePath(a)[|p|..|p| + n] == Sanitized(a) && CachePath(b)[|p|..|p| + m] == Sanitized(b);
    assert |CachePath(a)| == |p| + n + 5 && |CachePath(b)| == |p| + m + 5;
  }

  /** Collisions exist. */
  lemma NamesCollide()
    ensures "a.b" != "a b" && CachePath("a.b") == CachePath("a b")
  {
    assert Masked("a.b") == "a_b" == Masked("a b");
  }
}
