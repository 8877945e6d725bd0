/**
 Where the password of a login comes from, and which passwords may be saved: `PasswordSource`
 and the login functions of src/client.rs around `LoginConfigHandler`.

 SHA-256 is an arbitrary function with non-empty results, applied to a password followed by the
 salt of the peer.
 */
module LoginPassword {
  import opened Wrappers

  type Bytes = seq<char>
  type Hash = Bytes -> Bytes

  datatype PasswordSource = PersonalAb(hash: Bytes) | SharedAb(password: Bytes) | Undefined
  {
    predicate IsPersonalAb(password: Bytes) {
      password != [] && PersonalAb? && hash == password
    }

    predicate IsSharedAb(password: Bytes, sha: Hash, salt: Bytes) {
      password != [] && SharedAb? && sha(this.password + salt) == password
    }

    // The tag tells the truth about a non-empty password.
    predicate Explains(password: Bytes, sha: Hash, salt: Bytes) {
      password == [] ||
      match this
      case PersonalAb(h) => password == h
      case SharedAb(p) => password == sha(p + salt)
      case Undefined => true
    }
  }

  datatype ConnToken = ConnToken(password: Bytes, source: PasswordSource)

  // What the history of a non-empty password says about its tag: `shared` is the shared or builtin
  // password it is the digest of, `tagSalt` the salt that digest was made with, and `untagged`
  // whether a verified switch-back has reset the tag since.
  ghost predicate Traced(password: Bytes, source: PasswordSource, shared: Option<Bytes>, tagSalt: Bytes, untagged: bool,
                         sha: Hash)
  {
    && source.Explains(password, sha, tagSalt)
    && (password != [] && source.SharedAb? ==> shared == Some(source.password) && !untagged)
    && (password != [] && shared.Some? && !untagged ==> source == SharedAb(shared.value))
    && (password != [] && shared.Some? ==> password == sha(shared.value + tagSalt) && !source.PersonalAb?)
  }

  datatype LoginError = PasswordEmpty | PasswordWrong | OtherError

  // ---------------------------------------------------------------------------------------
  // What gets saved
  // ---------------------------------------------------------------------------------------

  // The saved password after a login, from the one saved before.
  function Saved(remember: bool, password: Bytes, source: PasswordSource, sha: Hash, salt: Bytes, before: Bytes): Bytes
  {
    if remember then
      if password != [] && password != before && !source.IsSharedAb(password, sha, salt) then password else before
    else if source.IsPersonalAb(password) then password
    else []
  }

  /** A password that is truthfully tagged as shared is never saved: what was saved stays or goes. */
  lemma SharedNeverSaved(remember: bool, password: Bytes, source: PasswordSource, sha: Hash, salt: Bytes, before: Bytes)
    requires source.SharedAb? && source.Explains(password, sha, salt)
    ensures Saved(remember, password, source, sha, salt, before) == if remember then before else []
  {
  }

  // ---------------------------------------------------------------------------------------
  // The handler
  // ---------------------------------------------------------------------------------------

  class LoginConfigHandler {
    const sha: Hash
    var salt: Bytes                // hash.salt, empty before the first hash; a peer may change it
    var password: Bytes
    var passwordSource: PasswordSource
    var sharedPassword: Option<Bytes>
    var remember: bool
    var savedPassword: Bytes       // config.password
    var switchPending: bool        // switch_uuid.is_some()

    ghost var shared: Option<Bytes>
    ghost var tagSalt: Bytes
    ghost var untagged: bool

    ghost predicate Valid()
      reads this
    {
      && (forall text :: sha(text) != [])
      && Traced(password, passwordSource, shared, tagSalt, untagged, sha)
    }

    /** A new session; the password of a token comes with its history. */
    constructor (sha: Hash, saved: Bytes, sharedPassword: Option<Bytes>, switchPending: bool, token: Option<ConnToken>,
                 ghost tokenShared: Option<Bytes>, ghost tokenSalt: Bytes, ghost tokenUntagged: bool)
      requires forall text :: sha(text) != []
      requires token.Some? ==>
                 Traced(token.value.password, token.value.source, tokenShared, tokenSalt, tokenUntagged, sha)
      ensures Valid() && this.sha == sha && savedPassword == saved && salt == []
      ensures this.sharedPassword == sharedPassword && this.switchPending == switchPending && remember == (saved != [])
      ensures token.None? ==> password == [] && passwordSource == Undefined && shared == None && !untagged
      ensures token.Some? ==> password == token.value.password && passwordSource == token.value.source
      ensures token.Some? ==> shared == tokenShared && tagSalt == tokenSalt && untagged == tokenUntagged
    {
      this.sha, this.salt := sha, [];
      savedPassword, remember := saved, saved != [];
      this.sharedPassword, this.switchPending := sharedPassword, switchPending;
      password := if token.Some? then token.value.password else [];
      passwordSource := if token.Some? then token.value.source else Undefined;
      shared := if token.Some? then tokenShared else None;
      tagSalt := tokenSalt;
      untagged := token.Some? && tokenUntagged;
    }

    /** The password and its tag are handed to another session together, and so is their history. */
    method GetConnToken() returns (token: Option<ConnToken>)
      requires Valid()
      ensures token.None? <==> password == []
      ensures token.Some? ==> token.value == ConnToken(password, passwordSource)
      ensures token.Some? ==> Traced(token.value.password, token.value.source, shared, tagSalt, untagged, sha)
    {
      token := if password == [] then None else Some(ConnToken(password, passwordSource));
    }

    // What a new password that is not shared leaves behind.
    ghost method Forget()
      modifies this`shared, this`untagged
      ensures shared == None && !untagged
    {
      shared, untagged := None, false;
    }

    ghost method Remember(text: Bytes)
      modifies this`shared, this`tagSalt, this`untagged
      ensures shared == Some(text) && tagSalt == salt && !untagged
    {
      shared, tagSalt, untagged := Some(text), salt, false;
    }

    /** The passwords in the order they are tried, each with its own tag. */
    method ApplyPassword(preset: Bytes, personal: Option<Bytes>, builtin: Bytes)
      requires Valid()
      modifies this`password, this`passwordSource, this`sharedPassword, this`shared, this`tagSalt, this`untagged
      ensures Valid()
      ensures sharedPassword == None
      ensures var asked := old(sharedPassword);
              asked.Some? && asked.value != [] ==>
                && password == sha(asked.value + salt) && passwordSource == SharedAb(asked.value)
                && shared == asked && tagSalt == salt && !untagged
      ensures (old(sharedPassword) == None || old(sharedPassword) == Some([])) && old(password) != [] ==>
                && password == old(password) && passwordSource == old(passwordSource)
                && shared == old(shared) && tagSalt == old(tagSalt) && untagged == old(untagged)
      ensures (old(sharedPassword) == None || old(sharedPassword) == Some([])) && old(password) == [] ==>
                if preset != [] then password == sha(preset + salt) && passwordSource == Undefined
                else if savedPassword != [] then password == savedPassword && passwordSource == Undefined
                else if personal.Some? && personal.value != [] then
                  password == personal.value && passwordSource == PersonalAb(personal.value)
                else if builtin != [] then password == sha(builtin + salt) && passwordSource == SharedAb(builtin)
                else password == [] && passwordSource == old(passwordSource)
    {
      var password := this.password;
      if password == [] && preset != [] {
        password := sha(preset + salt);
        passwordSource := Undefined;
        Forget();
      }
      var sharedPassword := this.sharedPassword;
      this.sharedPassword := None;
      if sharedPassword.Some? && sharedPassword.value != [] {
        password := sha(sharedPassword.value + salt);
        passwordSource := SharedAb(sharedPassword.value);
        Remember(sharedPassword.value);
      }
      if password == [] {
        password := savedPassword;
        if password != [] {
          passwordSource := Undefined;
          Forget();
        }
      }
      if password == [] && personal.Some? && personal.value != [] {
        password := personal.value;
        passwordSource := PersonalAb(personal.value);
        Forget();
      }
      if password == [] && builtin != [] {
        password := sha(builtin + salt);
        passwordSource := SharedAb(builtin);
        Remember(builtin);
      }
      this.password := password;
    }

    /** `switched` is whether a pending switch-back is verified; a switch-back logs in without a
        password, an incoming-only client not at all. The salt is whatever the peer sends. */
    method HandleHash(preset: Bytes, salt: Bytes, switched: bool, incomingOnly: bool, personal: Option<Bytes>,
                      builtin: Bytes)
      returns (loggedIn: bool)
      requires Valid()
      modifies this
      ensures Valid() && this.salt == salt && savedPassword == old(savedPassword) && remember == old(remember)
      ensures loggedIn <==> (old(switchPending) && switched) || !incomingOnly
      ensures (old(switchPending) && switched) || incomingOnly ==>
                password == old(password) && shared == old(shared) && tagSalt == old(tagSalt)
      ensures old(switchPending) && switched ==> untagged && passwordSource == Undefined
      ensures !(old(switchPending) && switched) && incomingOnly ==> passwordSource == old(passwordSource)
      ensures var asked := old(sharedPassword);
              !(old(switchPending) && switched) && !incomingOnly && asked.Some? && asked.value != [] ==>
                && password == sha(asked.value + salt) && passwordSource == SharedAb(asked.value)
                && shared == asked && tagSalt == salt && !untagged
      ensures var asked := old(sharedPassword);
              !(old(switchPending) && switched) && !incomingOnly && (asked == None || asked == Some([]))
              && old(password) != [] ==>
                && password == old(password) && passwordSource == old(passwordSource)
                && shared == old(shared) && tagSalt == old(tagSalt) && untagged == old(untagged)
      ensures var asked := old(sharedPassword);
              !(old(switchPending) && switched) && !incomingOnly && (asked == None || asked == Some([]))
              && old(password) == [] ==>
                if preset != [] then password == sha(preset + salt) && passwordSource == Undefined
                else if savedPassword != [] then password == savedPassword && passwordSource == Undefined
                else if personal.Some? && personal.value != [] then
                  password == personal.value && passwordSource == PersonalAb(personal.value)
                else if builtin != [] then password == sha(builtin + salt) && passwordSource == SharedAb(builtin)
                else password == [] && passwordSource == old(passwordSource)
      ensures !(old(switchPending) && switched) && !incomingOnly ==> sharedPassword == None
    {
      this.salt := salt;
      if switchPending {
        switchPending := false;
        if switched {
          passwordSource := Undefined;
          untagged := true;
          return true;
        }
      }
      if incomingOnly {
        return false;
      }
      ApplyPassword(preset, personal, builtin);
      loggedIn := true;
    }

    /** A password typed in, or the saved one, is tagged as neither shared nor personal; nothing typed
        over an earlier password leaves that and its tag alone. */
    method HandleLoginFromUi(typed: Bytes, remember: bool)
      requires Valid()
      modifies this
      ensures Valid() && salt == old(salt) && savedPassword == old(savedPassword)
      ensures password == if typed != [] then sha(typed + salt)
                          else if old(password) != [] then old(password) else savedPassword
      ensures passwordSource == if typed != [] || (old(password) == [] && savedPassword != []) then Undefined
                                else old(passwordSource)
      ensures this.remember == if typed != [] then remember else old(this.remember)
    {
      if typed == [] {
        if password == [] {
          password := savedPassword;
          if password != [] {
            passwordSource := Undefined;
            Forget();
          }
        }
      } else {
        passwordSource := Undefined;
        Forget();
        this.remember := remember;
        password := sha(typed + salt);
      }
    }

    method HandleLoginError(error: LoginError)
      requires Valid()
      modifies this`password
      ensures Valid() && password == if error.OtherError? then old(password) else []
    {
      match error {
        case PasswordEmpty => password := [];
        case PasswordWrong => password := [];
        case OtherError =>
      }
    }

    /** After a login the saved password changes as `Saved` says. The digest of a shared password is
        saved exactly when passwords are remembered and either a verified switch-back has reset its tag
        or the digest under the salt of this login is another one. */
    method HandlePeerInfo() returns (sync: Option<Bytes>)
      requires Valid()
      modifies this`savedPassword
      ensures Valid() && savedPassword == Saved(remember, password, passwordSource, sha, salt, old(savedPassword))
      ensures shared.Some? && password != [] && password != old(savedPassword) ==>
                (savedPassword == password <==> remember && (untagged || sha(shared.value + salt) != password))
      ensures shared.Some? && password != [] && !untagged && sha(shared.value + salt) == password ==>
                sync.None? && savedPassword == if remember then old(savedPassword) else []
      ensures remember && password == [] ==> savedPassword == old(savedPassword)
      ensures remember && password != [] && !passwordSource.SharedAb? ==> savedPassword == password
      ensures !remember && password != [] && passwordSource == PersonalAb(password) ==> savedPassword == password
      ensures !remember && !(password != [] && passwordSource == PersonalAb(password)) ==> savedPassword == []
      ensures sync == if || savedPassword == []
                         || (password != [] && passwordSource == PersonalAb(password))
                         || (password != [] && passwordSource.SharedAb?
                             && password == sha(passwordSource.password + salt))
                      then None else Some(savedPassword)
    {
      var before := savedPassword;
      if remember {
        if password != [] && password != before && !passwordSource.IsSharedAb(password, sha, salt) {
          savedPassword := password;
        }
      } else {
        if passwordSource.IsPersonalAb(password) {
          savedPassword := password;
        } else if before != [] {
          savedPassword := [];
        }
      }
      sync := if savedPassword != [] && !passwordSource.IsSharedAb(password, sha, salt)
                 && !passwordSource.IsPersonalAb(password) then Some(savedPassword) else None;
    }
  }

  // ---------------------------------------------------------------------------------------
  // Runs that save a shared password
  // ---------------------------------------------------------------------------------------

  /** A session that got a shared password by token, remembers passwords and switches back saves it. */
  method SwitchBackSavesShared(sha: Hash, text: Bytes, salt: Bytes, saved: Bytes) returns (handler: LoginConfigHandler)
    requires (forall t :: sha(t) != []) && saved != [] && saved != sha(text + salt)
    ensures handler.savedPassword == sha(text + salt)
  {
    var token := ConnToken(sha(text + salt), SharedAb(text));
    handler := new LoginConfigHandler(sha, saved, None, true, Some(token), Some(text), salt, false);
    var loggedIn := handler.HandleHash([], salt, true, false, None, []);
    var sync := handler.HandlePeerInfo();
  }

  /** ... so does the next session, which gets the password by a token after the switch-back and
      itself neither switches nor sees another salt ... */
  method LaterSessionSavesShared(sha: Hash, text: Bytes, salt: Bytes, saved: Bytes) returns (later: LoginConfigHandler)
    requires (forall t :: sha(t) != []) && saved != [] && saved != sha(text + salt)
    ensures later.savedPassword == sha(text + salt)
  {
    var token := ConnToken(sha(text + salt), SharedAb(text));
    var first := new LoginConfigHandler(sha, [], None, true, Some(token), Some(text), salt, false);
    var switchedBack := first.HandleHash([], salt, true, false, None, []);
    var handedOn := first.GetConnToken();
    later := new LoginConfigHandler(sha, saved, None, false, handedOn, first.shared, first.tagSalt, first.untagged);
    var loggedIn := later.HandleHash([], salt, false, false, None, []);
    var sync := later.HandlePeerInfo();
  }

  /** ... and so does one that logs in again after the peer has changed its salt, exactly if the
      digest changes with it. */
  method ChangedSaltSavesShared(sha: Hash, text: Bytes, salt: Bytes, newSalt: Bytes, saved: Bytes)
    returns (handler: LoginConfigHandler)
    requires (forall t :: sha(t) != []) && text != [] && saved != [] && saved != sha(text + salt)
    ensures handler.savedPassword == if sha(text + newSalt) != sha(text + salt) then sha(text + salt) else saved
  {
    handler := new LoginConfigHandler(sha, saved, Some(text), false, None, None, [], false);
    var first := handler.HandleHash([], salt, false, false, None, []);
    var second := handler.HandleHash([], newSalt, false, false, None, []);
    var sync := handler.HandlePeerInfo();
  }
}
