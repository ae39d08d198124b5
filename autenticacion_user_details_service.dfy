/**
 * The autenticacion CustomUserDetailsService: loadUserByUsername finds the account
 * whose email equals the submitted name ignoring case and adapts it with
 * NominaUserDetails; with no such account it throws UsernameNotFoundException.
 * It only reads the store.
 */
module AutenticacionUserDetailsService {

  import opened Wrappers
  import opened JavaText
  import opened EmailLookup
  import opened AutenticacionUserDetails

  /** The emails of the stored accounts, in scan order. */
  function Emails(store: seq<Usuario>): (r: seq<string>)
    ensures |r| == |store| && forall i :: 0 <= i < |store| ==> r[i] == store[i].email
  {
    seq(|store|, i requires 0 <= i < |store| => store[i].email)
  }

  /** loadUserByUsername: the adapter over the one account whose email equals the input
      ignoring case; its login name is the stored email, not the submitted spelling. */
  function LoadUserByUsername(store: seq<Usuario>, username: string): (r: Result<NominaUserDetails, LoadError>)
    ensures r.Success? <==> exists i :: UniqueMatchAt(Emails(store), username, i)
    ensures forall i :: UniqueMatchAt(Emails(store), username, i) ==> r == Success(NominaUserDetails(store[i]))
    ensures r.Success? ==> r.value.usuario in store && EqualsIgnoreCase(r.value.Username(), username)
    ensures r == Failure(UsernameNotFound(NotFoundPrefix + username)) <==>
      forall u :: u in store ==> !EqualsIgnoreCase(u.email, username)
    ensures r.Failure? ==> r.error == UsernameNotFound(NotFoundPrefix + username) || r.error == IncorrectResultSize
  {
    var emails := Emails(store);
    match FindByEmailIgnoreCase(emails, username)
    case NoMatch =>
      assert forall u :: u in store ==> !EqualsIgnoreCase(u.email, username) by {
        forall u | u in store ensures !EqualsIgnoreCase(u.email, username) {
          var i :| 0 <= i < |store| && store[i] == u;
          assert emails[i] == u.email;
        }
      }
      assert forall k :: !UniqueMatchAt(emails, username, k);
      Failure(UsernameNotFound(NotFoundPrefix + username))
    case Unique(i) =>
      assert UniqueMatchAt(emails, username, i);
      assert forall k :: UniqueMatchAt(emails, username, k) ==> k == i;
      Success(NominaUserDetails(store[i]))
    case NonUnique =>
      var i, j :| 0 <= i < j < |emails| && EqualsIgnoreCase(emails[i], username) && EqualsIgnoreCase(emails[j], username);
      assert store[i] in store && store[i].email == emails[i];
      assert forall k :: !UniqueMatchAt(emails, username, k) by {
        forall k ensures !UniqueMatchAt(emails, username, k) {
          if k != i {
            assert EqualsIgnoreCase(emails[i], username);
          } else {
            assert EqualsIgnoreCase(emails[j], username);
          }
        }
      }
      Failure(IncorrectResultSize)
  }

  /** Submitted names that differ only in letter case load the same principal, and both
      are not found when one is. */
  lemma LoadIgnoresCaseOfInput(store: seq<Usuario>, u1: string, u2: string)
    requires EqualsIgnoreCase(u1, u2)
    ensures LoadUserByUsername(store, u1).Success? <==> LoadUserByUsername(store, u2).Success?
    ensures LoadUserByUsername(store, u1).Success? ==> LoadUserByUsername(store, u1) == LoadUserByUsername(store, u2)
    ensures LoadUserByUsername(store, u1) == Failure(IncorrectResultSize) <==>
            LoadUserByUsername(store, u2) == Failure(IncorrectResultSize)
  {
    LookupIgnoresCase(Emails(store), u1, u2);
  }

  /** When the stored emails are distinct ignoring case, any spelling of a stored email
      loads that account. */
  lemma DistinctStoreLoadsEachAccount(store: seq<Usuario>, username: string, i: nat)
    requires DistinctIgnoringCase(Emails(store))
    requires i < |store| && EqualsIgnoreCase(store[i].email, username)
    ensures LoadUserByUsername(store, username) == Success(NominaUserDetails(store[i]))
  {
    var emails := Emails(store);
    assert emails[i] == store[i].email;
    DistinctStoreFindsEachEmail(emails, username);
    assert FindByEmailIgnoreCase(emails, username) == Unique(i);
  }
}
