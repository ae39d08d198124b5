/**
 * The one query both user-details services send to their repository:
 * `findByEmailIgnoreCase(email)`, a Spring Data derived query returning an Optional.
 * No matching row gives an empty Optional, one row gives that row, and more than one
 * row makes the query fail with IncorrectResultSizeDataAccessException.  The store is
 * seen here through the sequence of its emails, in scan order.
 */
module EmailLookup {

  import opened JavaText

  datatype Lookup = NoMatch | Unique(index: nat) | NonUnique

  /** How loadUserByUsername fails: UsernameNotFoundException with its message, or the
      data-access exception of a query that matched more than one row. */
  datatype LoadError = UsernameNotFound(message: string) | IncorrectResultSize

  /** The fixed start of the not-found message; the submitted username follows it. */
  const NotFoundPrefix := "No se encontró el usuario con email: "

  /** The positions, in increasing order, whose email equals `key` ignoring case. */
  function MatchingIndices(emails: seq<string>, key: string): (r: seq<nat>)
    ensures forall k: int :: k in r <==> 0 <= k < |emails| && EqualsIgnoreCase(emails[k], key)
    ensures forall a, b :: 0 <= a < b < |r| ==> r[a] < r[b]
    decreases |emails|
  {
    if emails == [] then []
    else
      var last := |emails| - 1;
      var rest := MatchingIndices(emails[..last], key);
      assert forall a :: 0 <= a < |rest| ==> rest[a] < last by {
        forall a | 0 <= a < |rest| ensures rest[a] < last {
          assert rest[a] in rest;
        }
      }
      if EqualsIgnoreCase(emails[last], key) then rest + [last] else rest
  }

  /** Position i holds the only email equal to `key` ignoring case. */
  predicate UniqueMatchAt(emails: seq<string>, key: string, i: int) {
    0 <= i < |emails| && EqualsIgnoreCase(emails[i], key)
    && forall j :: 0 <= j < |emails| && j != i ==> !EqualsIgnoreCase(emails[j], key)
  }

  /** findByEmailIgnoreCase over a store whose emails are `emails`. */
  function FindByEmailIgnoreCase(emails: seq<string>, key: string): (r: Lookup)
    ensures r == NoMatch <==> forall i :: 0 <= i < |emails| ==> !EqualsIgnoreCase(emails[i], key)
    ensures forall i: nat :: r == Unique(i) <==> UniqueMatchAt(emails, key, i)
    ensures r == NonUnique <==>
      exists i, j :: 0 <= i < j < |emails| && EqualsIgnoreCase(emails[i], key) && EqualsIgnoreCase(emails[j], key)
  {
    var m := MatchingIndices(emails, key);
    if |m| == 0 then
      assert forall i :: 0 <= i < |emails| ==> !EqualsIgnoreCase(emails[i], key) by {
        forall i | 0 <= i < |emails| ensures !EqualsIgnoreCase(emails[i], key) {
          assert i !in m;
        }
      }
      NoMatch
    else if |m| == 1 then
      assert m[0] in m;
      assert forall j :: 0 <= j < |emails| && j != m[0] ==> !EqualsIgnoreCase(emails[j], key) by {
        forall j | 0 <= j < |emails| && EqualsIgnoreCase(emails[j], key) ensures j == m[0] {
          assert j in m;
        }
      }
      Unique(m[0])
    else
      assert m[0] in m && m[1] in m;
      NonUnique
  }

  /** No two stored emails are equal ignoring case. */
  predicate DistinctIgnoringCase(emails: seq<string>) {
    forall i, j :: 0 <= i < j < |emails| ==> !EqualsIgnoreCase(emails[i], emails[j])
  }

  /** An email matches one key exactly when it matches any key equal to it ignoring
      case. */
  lemma MatchDependsOnKeyUpToCase(email: string, k1: string, k2: string)
    requires EqualsIgnoreCase(k1, k2)
    ensures EqualsIgnoreCase(email, k1) <==> EqualsIgnoreCase(email, k2)
  {
    EqualsIgnoreCaseIsEquivalence(email, k1, k2);
    EqualsIgnoreCaseIsEquivalence(email, k2, k1);
    EqualsIgnoreCaseIsEquivalence(k1, k2, k2);
  }

  /** Keys that differ only in letter case match the same positions. */
  lemma {:induction false} MatchingIndicesIgnoreCase(emails: seq<string>, k1: string, k2: string)
    requires EqualsIgnoreCase(k1, k2)
    ensures MatchingIndices(emails, k1) == MatchingIndices(emails, k2)
    decreases |emails|
  {
    if emails != [] {
      var last := |emails| - 1;
      MatchingIndicesIgnoreCase(emails[..last], k1, k2);
      MatchDependsOnKeyUpToCase(emails[last], k1, k2);
    }
  }

  /** Inputs that differ only in letter case give the same lookup result. */
  lemma LookupIgnoresCase(emails: seq<string>, k1: string, k2: string)
    requires EqualsIgnoreCase(k1, k2)
    ensures MatchingIndices(emails, k1) == MatchingIndices(emails, k2)
    ensures FindByEmailIgnoreCase(emails, k1) == FindByEmailIgnoreCase(emails, k2)
  {
    MatchingIndicesIgnoreCase(emails, k1, k2);
  }

  /** When the stored emails are distinct ignoring case the query never fails, and
      any spelling of a stored email finds exactly that record. */
  lemma DistinctStoreFindsEachEmail(emails: seq<string>, key: string)
    requires DistinctIgnoringCase(emails)
    ensures FindByEmailIgnoreCase(emails, key) != NonUnique
    ensures forall i :: 0 <= i < |emails| && EqualsIgnoreCase(emails[i], key) ==>
      FindByEmailIgnoreCase(emails, key) == Unique(i)
  {
    if FindByEmailIgnoreCase(emails, key) == NonUnique {
      var i, j :| 0 <= i < j < |emails| && EqualsIgnoreCase(emails[i], key) && EqualsIgnoreCase(emails[j], key);
      EqualsIgnoreCaseIsEquivalence(emails[i], key, emails[j]);
      EqualsIgnoreCaseIsEquivalence(emails[j], key, key);
      assert false;
    }
  }
}
