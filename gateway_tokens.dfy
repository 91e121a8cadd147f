/**
 * The gateway's token registry: an in-memory username-to-token map that is
 * written to a file after every change and read back when the registry is
 * created. The file is the field `file` (`None` while it does not exist).
 */
module GatewayTokens {
  import opened Wrappers

  class Tokens {
    var tokens: map<string, string>
    /** What the tokens file holds, if it exists. */
    var file: Option<map<string, string>>

    /** `Tokens()`: load the registry from the file there is (or is not). */
    constructor (file: Option<map<string, string>>)
      ensures file.None? ==> tokens == map[] && this.file == Some(map[])
      ensures file.Some? ==> tokens == file.value && this.file == file
    {
      this.file := file;
      tokens := map[];
      new;
      Load();
    }

    /** `load`: an absent file gives the empty map, which is saved at once. */
    method Load()
      modifies this
      ensures old(file).None? ==> tokens == map[] && file == Some(map[])
      ensures old(file).Some? ==> tokens == old(file).value && file == old(file)
    {
      if file.None? {
        tokens := map[];
        Save();
      } else {
        tokens := file.value;
      }
    }

    /** `save`: the file now holds the map. */
    method Save()
      modifies this`file
      ensures file == Some(tokens)
    {
      file := Some(tokens);
    }

    predicate Exists(username: string)
      reads this
    {
      username in tokens
    }

    /** `get`: the token of a known username, `None` for any other. */
    function Get(username: string): (r: Option<string>)
      reads this
      ensures r.Some? <==> Exists(username)
      ensures r.Some? ==> r.value == tokens[username]
    {
      if Exists(username) then Some(tokens[username]) else None
    }

    /**
     * `generate`: give `username` the token `token` (standing for
     * `secrets.token_hex(16)`), replacing any earlier one, and save.
     */
    method Generate(username: string, token: string) returns (t: string)
      modifies this
      ensures t == token
      ensures tokens == old(tokens)[username := t]
      ensures file == Some(tokens)
      ensures Exists(username) && Get(username) == Some(t)
      ensures forall u :: u != username ==> Get(u) == old(Get(u))
    {
      t := token;
      tokens := tokens[username := t];
      Save();
    }
  }

  /**
   * Tokens generated for several users are all found by a registry loaded
   * afresh from the file, and a second `generate` for one user replaces the
   * first token.
   */
  method GeneratedTokensSurviveReload(registry: Tokens, t1: string, t2: string, t3: string, t4: string)
    returns (reloaded: Tokens)
    modifies registry
    ensures reloaded.Get("uuid1") == Some(t4)
    ensures reloaded.Get("uuid2") == Some(t2)
    ensures reloaded.Get("uuid3") == Some(t3)
  {
    var a := registry.Generate("uuid1", t1);
    var b := registry.Generate("uuid2", t2);
    var c := registry.Generate("uuid3", t3);
    var d := registry.Generate("uuid1", t4);
    reloaded := new Tokens(registry.file);
  }
}
