/** The table of online clients, and the signals of a client. */
module ClientManager {
  import opened Options

  type AccountId = int
  type Terminal = int

  /** `mapOnlineClient`, for whatever stands for a client. */
  type Online<C> = map<AccountId, map<Terminal, C>>

  // ----- The operations on the table

  function Lookup<C>(m: Online<C>, a: AccountId, t: Terminal): Option<C> {
    if a in m && t in m[a] then Some(m[a][t]) else None
  }

  function Stored<C>(m: Online<C>, a: AccountId, t: Terminal, c: C): Online<C> {
    m[a := (if a in m then m[a] else map[])[t := c]]
  }

  /** Removal goes by key: whatever client is stored there disappears. */
  function Removed<C>(m: Online<C>, a: AccountId, t: Terminal): Online<C> {
    if a in m && t in m[a] then
      var rest := m[a] - {t};
      if rest == map[] then m - {a} else m[a := rest]
    else m
  }

  /** No account keeps an empty map of terminals. */
  predicate NoneEmpty<C>(m: Online<C>) {
    forall a :: a in m ==> m[a] != map[]
  }

  lemma StoredLookup<C>(m: Online<C>, a: AccountId, t: Terminal, c: C, b: AccountId, u: Terminal)
    ensures Lookup(Stored(m, a, t, c), b, u) == if b == a && u == t then Some(c) else Lookup(m, b, u)
  {
  }

  lemma RemovedLookup<C>(m: Online<C>, a: AccountId, t: Terminal, b: AccountId, u: Terminal)
    ensures Lookup(Removed(m, a, t), b, u) == if b == a && u == t then None else Lookup(m, b, u)
  {
    if b == a && u != t && a in m && u in m[a] {
      assert u in m[a] - {t};
    }
  }

  lemma StoredNoneEmpty<C>(m: Online<C>, a: AccountId, t: Terminal, c: C)
    requires NoneEmpty(m)
    ensures NoneEmpty(Stored(m, a, t, c))
  {
    assert t in Stored(m, a, t, c)[a];
  }

  lemma RemovedNoneEmpty<C>(m: Online<C>, a: AccountId, t: Terminal)
    requires NoneEmpty(m)
    ensures NoneEmpty(Removed(m, a, t))
  {
  }

  lemma NoKeys<K, V>(m: map<K, V>)
    requires forall k :: k !in m
    ensures m == map[]
  {
  }

  /** The accounts in the table are those with a client on some terminal, so that the size of
  the table counts online users. */
  lemma OnlineAccounts<C>(m: Online<C>, a: AccountId)
    requires NoneEmpty(m)
    ensures a in m <==> exists t :: Lookup(m, a, t).Some?
  {
    if a in m {
      if forall t :: t !in m[a] { NoKeys(m[a]); }
      var t :| t in m[a];
      assert Lookup(m, a, t).Some?;
    }
  }

  /** The accounts with a client on some terminal. */
  ghost function Users<C>(m: Online<C>): set<AccountId> {
    set a | a in m && exists t :: Lookup(m, a, t).Some?
  }

  lemma UsersAreKeys<C>(m: Online<C>)
    requires NoneEmpty(m)
    ensures Users(m) == m.Keys
  {
    forall a | a in m ensures a in Users(m) { OnlineAccounts(m, a); }
  }

  // ----- The objects

  class Client {
    const accountId: AccountId
    const terminalType: Terminal
    var isClosed: bool
    var closeSignalClosed: bool
    var doneClosed: bool

    ghost predicate Valid()
      reads this
    {
      isClosed == closeSignalClosed
    }

    constructor (a: AccountId, t: Terminal)
      ensures Valid() && !isClosed && !doneClosed && accountId == a && terminalType == t
    {
      accountId, terminalType := a, t;
      isClosed, closeSignalClosed, doneClosed := false, false, false;
    }

    /** The close signal is closed by the first call only: closing a channel twice panics. */
    method Close() returns (first: bool)
      requires Valid()
      modifies this`isClosed, this`closeSignalClosed
      ensures Valid() && closeSignalClosed && first == !old(closeSignalClosed)
    {
      if isClosed {
        return false;
      }
      isClosed := true;
      assert !closeSignalClosed;
      closeSignalClosed := true;
      return true;
    }

    method Done()
      requires !doneClosed
      modifies this`doneClosed
      ensures doneClosed
    {
      doneClosed := true;
    }
  }

  class Manager {
    var mapOnlineClient: Online<Client>

    /** The clients that goroutines of `KickClient` are still to close. */
    var closing: set<Client>

    ghost predicate Valid()
      reads this
    {
      NoneEmpty(mapOnlineClient)
    }

    constructor ()
      ensures Valid() && mapOnlineClient == map[] && closing == {}
    {
      mapOnlineClient, closing := map[], {};
    }

    method StoreClient(cli: Client)
      requires Valid()
      modifies this`mapOnlineClient
      ensures Valid()
      ensures mapOnlineClient == Stored(old(mapOnlineClient), cli.accountId, cli.terminalType, cli)
    {
      StoredNoneEmpty(mapOnlineClient, cli.accountId, cli.terminalType, cli);
      if cli.accountId in mapOnlineClient {
        var mapClient: map<Terminal, Client> := mapOnlineClient[cli.accountId];
        mapClient := mapClient[cli.terminalType := cli];
        mapOnlineClient := mapOnlineClient[cli.accountId := mapClient];
      } else {
        var m: map<Terminal, Client> := map[cli.terminalType := cli];
        mapOnlineClient := mapOnlineClient[cli.accountId := m];
        assert map[][cli.terminalType := cli] == m;
      }
    }

    /** The client whose done signal the caller waits for, and which a goroutine is to close; none
    if there is nobody to kick. */
    method KickClient(accountId: AccountId, terminalType: Terminal) returns (victim: Option<Client>)
      modifies this`closing
      ensures victim == Lookup(mapOnlineClient, accountId, terminalType)
      ensures closing == old(closing) + if victim.Some? then {victim.value} else {}
    {
      if accountId in mapOnlineClient {
        var mapClient := mapOnlineClient[accountId];
        if terminalType in mapClient {
          closing := closing + {mapClient[terminalType]};
          return Some(mapClient[terminalType]);
        }
      }
      return None;
    }

    /** The goroutine, after it has told the client. */
    method CloseKicked(cli: Client)
      requires cli in closing && cli.Valid()
      modifies this`closing, cli`isClosed, cli`closeSignalClosed
      ensures cli.Valid() && cli.closeSignalClosed && closing == old(closing) - {cli}
    {
      var first := cli.Close();
      closing := closing - {cli};
    }

    method RemoveClient(cli: Client)
      requires Valid() && !cli.doneClosed
      modifies this`mapOnlineClient, cli`doneClosed
      ensures Valid()
      ensures mapOnlineClient == Removed(old(mapOnlineClient), cli.accountId, cli.terminalType)
      ensures cli.doneClosed
    {
      RemovedNoneEmpty(mapOnlineClient, cli.accountId, cli.terminalType);
      if cli.accountId in mapOnlineClient {
        var mapClient: map<Terminal, Client> := mapOnlineClient[cli.accountId];
        if cli.terminalType in mapClient {
          mapClient := mapClient - {cli.terminalType};
          if |mapClient| == 0 {
            mapOnlineClient := mapOnlineClient - {cli.accountId};
          } else {
            mapOnlineClient := mapOnlineClient[cli.accountId := mapClient];
          }
        }
      }
      cli.Done();
    }

    /** The number of accounts that have a client. */
    method GetOnlineUserNumber() returns (n: nat)
      requires Valid()
      ensures n == |Users(mapOnlineClient)|
    {
      UsersAreKeys(mapOnlineClient);
      n := |mapOnlineClient|;
    }
  }
}
