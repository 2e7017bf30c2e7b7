/** Common/Accounts.java: a registry of e-mail addresses and passwords. */
module AccountRegistry {
  import opened Wire

  class Accounts {
    var credentialsMap: map<Str, Str>

    constructor()
      ensures credentialsMap == map[]
    {
      credentialsMap := map[];
    }

    /** getPassword: the registered password, or null for an unknown address. */
    function GetPassword(email: Str): (r: Option<Str>)
      reads this
      ensures r.None? <==> email !in credentialsMap
      ensures r.Some? ==> r.value == credentialsMap[email]
    {
      if email in credentialsMap then Some(credentialsMap[email]) else None
    }

    /** accountExists: whether the address is registered. */
    function AccountExists(email: Str): (b: bool)
      reads this
      ensures b <==> email in credentialsMap
    {
      email in credentialsMap
    }

    /** addAccount: records the password, replacing any earlier one for the
        same address; no other address is affected. */
    method AddAccount(email: Str, password: Str)
      modifies this
      ensures credentialsMap == old(credentialsMap)[email := password]
      ensures AccountExists(email) && GetPassword(email) == Some(password)
      ensures forall e | e != email :: GetPassword(e) == old(GetPassword(e)) && AccountExists(e) == old(AccountExists(e))
    {
      credentialsMap := credentialsMap[email := password];
    }
  }

  /** getPassword returns null exactly for the addresses accountExists denies. */
  lemma PasswordExactlyForAccounts(a: Accounts, email: Str)
    ensures a.GetPassword(email).None? <==> !a.AccountExists(email)
  {
  }
}
