/**
 * The browser session: the signed-in user is kept both in the provider's
 * state (`user`, `isAuthed`) and in local storage under one key, so that a
 * reload restores it. The stored JSON text is modelled by the user value it
 * encodes.
 */
module Auth {
  import opened Posts

  const SessionKey: string := "tl_user"

  /** The browser's local storage, shared by every provider on the page. */
  class Storage {
    var items: map<string, User>

    constructor (items0: map<string, User>)
      ensures items == items0
    {
      items := items0;
    }
  }

  class AuthProvider {
    const storage: Storage
    var user: Option<User>
    var isAuthed: bool

    /** The provider's state mirrors the stored session: signed in exactly
        when the key is present, and then as the stored user. */
    ghost predicate Synced()
      reads this, storage
    {
      && (isAuthed <==> SessionKey in storage.items)
      && user == (if isAuthed then Some(storage.items[SessionKey]) else None)
    }

    /** The state before the mount effect has run: nobody is signed in. */
    predicate Initial()
      reads this
    {
      user.None? && !isAuthed
    }

    constructor (storage: Storage)
      ensures this.storage == storage && Initial()
    {
      this.storage := storage;
      user := None;
      isAuthed := false;
    }

    /** The mount effect: adopt a stored session if there is one, otherwise
        leave the state as it is. Run on the initial state, it leaves the
        provider in step with storage. */
    method Init()
      modifies this
      ensures SessionKey in storage.items ==> user == Some(storage.items[SessionKey]) && isAuthed
      ensures SessionKey !in storage.items ==> user == old(user) && isAuthed == old(isAuthed)
      ensures old(Initial()) ==> Synced()
    {
      if SessionKey in storage.items {
        user := Some(storage.items[SessionKey]);
        isAuthed := true;
      }
    }

    /** `login`: any user value is accepted, stored and adopted. */
    method Login(u: User)
      modifies this, storage
      ensures storage.items == old(storage.items)[SessionKey := u]
      ensures user == Some(u) && isAuthed
      ensures Synced()
    {
      storage.items := storage.items[SessionKey := u];
      user := Some(u);
      isAuthed := true;
    }

    /** `logout`: the key is removed and the state cleared. */
    method Logout()
      modifies this, storage
      ensures storage.items == old(storage.items) - {SessionKey}
      ensures user.None? && !isAuthed
      ensures Synced()
    {
      storage.items := storage.items - {SessionKey};
      user := None;
      isAuthed := false;
    }
  }

  /** A session outlives a reload: a provider mounted after `login` on the
      same storage comes up signed in as the same user, and one mounted after
      `logout` comes up signed out. */
  method ReloadAfterLogin(storage: Storage, u: User) returns (restored: AuthProvider)
    modifies storage
    ensures restored.storage == storage && restored.user == Some(u) && restored.isAuthed
    ensures restored.Synced()
  {
    var before := new AuthProvider(storage);
    before.Init();
    before.Login(u);
    restored := new AuthProvider(storage);
    restored.Init();
  }

  method ReloadAfterLogout(storage: Storage) returns (restored: AuthProvider)
    modifies storage
    ensures restored.storage == storage && restored.user.None? && !restored.isAuthed
    ensures restored.Synced()
  {
    var before := new AuthProvider(storage);
    before.Init();
    before.Logout();
    restored := new AuthProvider(storage);
    restored.Init();
  }
}
