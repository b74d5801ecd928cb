// Changing a password: every key encrypted under the passphrase is re-encrypted under the new one, all or
// nothing, whichever of the writes fail. A write may also take effect with its reply lost.
module PasswordRewrap {
  import opened Wrappers
  import opened Bytes

  const PASSPHRASE_PREFIX := "pbk:"
  const PASSPHRASE_METHOD := "passphrase"
  const SALT_LEN := 16
  const NONCE_LEN := 12

  // ----- passphrase encryption

  // Sealing under a key derived from a passphrase and a salt, and the text form of bytes.
  datatype Crypto = Crypto(
    seal: (string, seq<byte>, seq<byte>, string) -> seq<byte>,
    open: (string, seq<byte>, seq<byte>, seq<byte>) -> Option<string>,
    encode: seq<byte> -> string,
    decode: string -> Option<seq<byte>>)
  {
    ghost predicate Valid() {
      && (forall passphrase, salt, nonce, plaintext ::
            open(passphrase, salt, nonce, seal(passphrase, salt, nonce, plaintext)) == Some(plaintext))
      && (forall bytes :: decode(encode(bytes)) == Some(bytes))
    }

    function EncryptBytes(passphrase: string, plaintext: string, salt: seq<byte>, nonce: seq<byte>): seq<byte> {
      salt + (nonce + seal(passphrase, salt, nonce, plaintext))
    }

    function DecryptBytes(passphrase: string, ciphertext: seq<byte>): Option<string> {
      if |ciphertext| < SALT_LEN then None
      else
        var salt, rest := ciphertext[..SALT_LEN], ciphertext[SALT_LEN..];
        if |rest| < NONCE_LEN then None else open(passphrase, salt, rest[..NONCE_LEN], rest[NONCE_LEN..])
    }

    function Encrypt(passphrase: string, plaintext: string, salt: seq<byte>, nonce: seq<byte>): string {
      PASSPHRASE_PREFIX + encode(EncryptBytes(passphrase, plaintext, salt, nonce))
    }

    // With or without the prefix.
    function Decrypt(passphrase: string, ciphertext: string): Option<string> {
      var raw := decode(if IsPassphraseEncrypted(ciphertext) then ciphertext[|PASSPHRASE_PREFIX|..] else ciphertext);
      if raw.None? then None else DecryptBytes(passphrase, raw.value)
    }

    // Decrypting what was encrypted under a passphrase gives it back.
    lemma EncryptThenDecrypt(passphrase: string, plaintext: string, salt: seq<byte>, nonce: seq<byte>)
      requires Valid() && |salt| == SALT_LEN && |nonce| == NONCE_LEN
      ensures IsPassphraseEncrypted(Encrypt(passphrase, plaintext, salt, nonce))
      ensures Decrypt(passphrase, Encrypt(passphrase, plaintext, salt, nonce)) == Some(plaintext)
    {
      var sealed := seal(passphrase, salt, nonce, plaintext);
      var raw, text := EncryptBytes(passphrase, plaintext, salt, nonce), Encrypt(passphrase, plaintext, salt, nonce);
      assert text[|PASSPHRASE_PREFIX|..] == encode(raw);
      assert raw[..SALT_LEN] == salt && raw[SALT_LEN..] == nonce + sealed;
      assert (nonce + sealed)[..NONCE_LEN] == nonce && (nonce + sealed)[NONCE_LEN..] == sealed;
    }

    function ReWrap(oldPass: string, newPass: string, ciphertext: string, salt: seq<byte>,
                    nonce: seq<byte>): Option<string> {
      if oldPass == "" || newPass == "" then None
      else
        var plaintext := Decrypt(oldPass, ciphertext);
        if plaintext.None? then None else Some(Encrypt(newPass, plaintext.value, salt, nonce))
    }

    // Re-wrapping succeeds exactly on what the old passphrase opens, and the new one then opens the same.
    lemma ReWrapKeepsPlaintext(oldPass: string, newPass: string, ciphertext: string, salt: seq<byte>, nonce: seq<byte>)
      requires Valid() && |salt| == SALT_LEN && |nonce| == NONCE_LEN && oldPass != "" && newPass != ""
      ensures var wrapped := ReWrap(oldPass, newPass, ciphertext, salt, nonce);
              && (wrapped.Some? <==> Decrypt(oldPass, ciphertext).Some?)
              && (wrapped.Some? ==>
                    && IsPassphraseEncrypted(wrapped.value)
                    && Decrypt(newPass, wrapped.value) == Decrypt(oldPass, ciphertext))
    {
      if Decrypt(oldPass, ciphertext).Some? {
        EncryptThenDecrypt(newPass, Decrypt(oldPass, ciphertext).value, salt, nonce);
      }
    }
  }

  predicate IsPassphraseEncrypted(value: string) {
    PASSPHRASE_PREFIX <= value
  }

  // ----- stored keys

  datatype KeyRow = KeyRow(owner: string, ciphertext: string, encryption: string)

  datatype Reply = Done | Failed | Lost

  // A key to re-wrap: its ciphertext before and after.
  datatype Pending = Pending(id: string, oldCT: string, newCT: string)

  // Every row as it was, but the keys in changed carry the given ciphertexts under the passphrase method.
  function Rewritten(rows: map<string, KeyRow>, changed: map<string, string>): map<string, KeyRow> {
    map id | id in rows :: if id in changed then KeyRow(rows[id].owner, changed[id], PASSPHRASE_METHOD) else rows[id]
  }

  lemma RewrittenOnce(rows: map<string, KeyRow>, changed: map<string, string>, id: string, ciphertext: string)
    requires id in rows
    ensures Rewritten(rows, changed[id := ciphertext])
         == Rewritten(rows, changed)[id := KeyRow(rows[id].owner, ciphertext, PASSPHRASE_METHOD)]
  {
  }

  // A re-wrap that was worked out for a stored key of the user.
  ghost predicate Prepared(c: Crypto, rows: map<string, KeyRow>, user: string, oldPass: string, newPass: string,
                           p: Pending) {
    && p.id in rows && rows[p.id].owner == user && rows[p.id].ciphertext == p.oldCT
    && IsPassphraseEncrypted(p.oldCT) && IsPassphraseEncrypted(p.newCT)
    && c.Decrypt(oldPass, p.oldCT).Some? && c.Decrypt(newPass, p.newCT) == c.Decrypt(oldPass, p.oldCT)
  }

  ghost predicate AllPrepared(c: Crypto, rows: map<string, KeyRow>, user: string, oldPass: string, newPass: string,
                              todo: seq<Pending>) {
    && (forall i, j :: 0 <= i < j < |todo| ==> todo[i].id != todo[j].id)
    && forall p :: p in todo ==> Prepared(c, rows, user, oldPass, newPass, p)
  }

  // Each changed key carries its old or its re-wrapped ciphertext.
  ghost predicate OldOrNew(todo: seq<Pending>, changed: map<string, string>) {
    forall id :: id in changed ==>
      exists p :: p in todo && p.id == id && (changed[id] == p.oldCT || changed[id] == p.newCT)
  }

  predicate OwnedPassphraseKey(rows: map<string, KeyRow>, user: string, id: string) {
    id in rows && rows[id].owner == user && IsPassphraseEncrypted(rows[id].ciphertext)
  }

  function PassphraseKeys(rows: map<string, KeyRow>, user: string): set<string> {
    set id | id in rows && OwnedPassphraseKey(rows, user, id)
  }

  // Every passphrase key of the user opens under the old passphrase, and neither passphrase is empty.
  ghost predicate AllReadable(c: Crypto, rows: map<string, KeyRow>, user: string, oldPass: string, newPass: string) {
    forall id :: OwnedPassphraseKey(rows, user, id) ==>
      oldPass != "" && newPass != "" && c.Decrypt(oldPass, rows[id].ciphertext).Some?
  }

  // A complete list of re-wraps has one for each passphrase key.
  lemma {:induction false} ListedOnce(todo: seq<Pending>, keys: set<string>)
    requires forall i, j :: 0 <= i < j < |todo| ==> todo[i].id != todo[j].id
    requires forall id :: id in keys <==> exists p :: p in todo && p.id == id
    ensures |todo| == |keys|
  {
    if todo == [] {
      assert keys == {};
    } else {
      var rest, last := todo[..|todo| - 1], todo[|todo| - 1];
      forall id
        ensures id in keys - {last.id} <==> exists p :: p in rest && p.id == id
      {
        if id in keys - {last.id} {
          var p :| p in todo && p.id == id;
          assert p in rest;
        }
      }
      ListedOnce(rest, keys - {last.id});
      assert last in todo;
    }
  }

  lemma PreparedIsComplete(c: Crypto, rows: map<string, KeyRow>, user: string, oldPass: string, newPass: string,
                           todo: seq<Pending>)
    requires AllPrepared(c, rows, user, oldPass, newPass, todo)
    requires forall id :: OwnedPassphraseKey(rows, user, id) ==> exists p :: p in todo && p.id == id
    ensures |todo| == |PassphraseKeys(rows, user)|
  {
    hide Crypto.Decrypt, IsPassphraseEncrypted;
    forall id
      ensures id in PassphraseKeys(rows, user) <==> exists p :: p in todo && p.id == id
    {
      if p :| p in todo && p.id == id {
        assert Prepared(c, rows, user, oldPass, newPass, p);
      }
    }
    ListedOnce(todo, PassphraseKeys(rows, user));
  }

  datatype RewrapError = Unreadable | WriteFailed

  class KeyStore {
    var rows: map<string, KeyRow>
    // every state the keys have been in since the change began
    ghost var history: seq<map<string, KeyRow>>

    ghost predicate Watched(before: map<string, KeyRow>, todo: seq<Pending>)
      reads this
    {
      forall h :: h in history ==> exists changed :: OldOrNew(todo, changed) && h == Rewritten(before, changed)
    }

    method UpdateKeyEncryption(id: string, ciphertext: string, reply: Reply, ghost before: map<string, KeyRow>,
                               ghost todo: seq<Pending>, ghost changed: map<string, string>)
      returns (ok: bool, ghost changed': map<string, string>)
      requires id in before && rows == Rewritten(before, changed) && Watched(before, todo)
      requires OldOrNew(todo, changed[id := ciphertext])
      modifies this
      ensures ok <==> reply.Done?
      ensures changed' == if reply.Failed? then changed else changed[id := ciphertext]
      ensures rows == Rewritten(before, changed') && Watched(before, todo)
    {
      changed' := changed;
      if !reply.Failed? {
        RewrittenOnce(before, changed, id, ciphertext);
        rows := rows[id := KeyRow(rows[id].owner, ciphertext, PASSPHRASE_METHOD)];
        changed' := changed[id := ciphertext];
        history := history + [rows];
      }
      ok := reply.Done?;
    }

    // The user's keys, in any order.
    method ListKeys(user: string) returns (ids: seq<string>)
      ensures forall id :: id in ids <==> id in rows && rows[id].owner == user
      ensures forall i, j :: 0 <= i < j < |ids| ==> ids[i] != ids[j]
    {
      ids := [];
      var rest := rows.Keys;
      while rest != {}
        invariant rest <= rows.Keys
        invariant forall id :: id in ids <==> id in rows && id !in rest && rows[id].owner == user
        invariant forall i, j :: 0 <= i < j < |ids| ==> ids[i] != ids[j]
      {
        var id :| id in rest;
        if rows[id].owner == user {
          ids := ids + [id];
        }
        rest := rest - {id};
      }
    }

    // Works out every re-wrap before anything is written.
    method Prepare(c: Crypto, user: string, oldPass: string, newPass: string, random: nat -> (seq<byte>, seq<byte>))
      returns (todo: Option<seq<Pending>>)
      requires c.Valid() && forall i :: |random(i).0| == SALT_LEN && |random(i).1| == NONCE_LEN
      ensures todo.Some? ==>
        && AllPrepared(c, rows, user, oldPass, newPass, todo.value)
        && forall id :: OwnedPassphraseKey(rows, user, id) ==> exists p :: p in todo.value && p.id == id
      ensures todo.None? <==>
        exists id :: OwnedPassphraseKey(rows, user, id)
          && (oldPass == "" || newPass == "" || c.Decrypt(oldPass, rows[id].ciphertext).None?)
    {
      hide Crypto.Decrypt, Crypto.Encrypt, Crypto.Valid;
      var ids := ListKeys(user);
      var ps: seq<Pending> := [];
      for i := 0 to |ids|
        invariant AllPrepared(c, rows, user, oldPass, newPass, ps)
        invariant forall p :: p in ps ==> exists j :: 0 <= j < i && p.id == ids[j]
        invariant forall j :: 0 <= j < i && OwnedPassphraseKey(rows, user, ids[j]) ==>
          && (exists p :: p in ps && p.id == ids[j])
          && oldPass != "" && newPass != "" && c.Decrypt(oldPass, rows[ids[j]].ciphertext).Some?
      {
        var id, oldCT := ids[i], rows[ids[i]].ciphertext;
        if IsPassphraseEncrypted(oldCT) {
          var newCT := c.ReWrap(oldPass, newPass, oldCT, random(i).0, random(i).1);
          if newCT.None? {
            assert OwnedPassphraseKey(rows, user, id);
            return None;
          }
          c.ReWrapKeepsPlaintext(oldPass, newPass, oldCT, random(i).0, random(i).1);
          ps := ps + [Pending(id, oldCT, newCT.value)];
          assert ps[|ps| - 1] in ps && ps[|ps| - 1].id == id;
        }
      }
      return Some(ps);
    }

    // Writes the re-wrapped ciphertexts, stopping at the first write that does not report success.
    method WriteAll(todo: seq<Pending>, reply: nat -> Reply, ghost before: map<string, KeyRow>)
      returns (n: nat, ghost changed: map<string, string>, ghost lost: bool)
      requires rows == before && history == [] && Stored(before, todo)
      modifies this
      ensures n <= |todo| && rows == Rewritten(before, changed) && Watched(before, todo)
      ensures Stage(todo, changed, n, lost, NONE_BACK) && (lost <==> n < |todo| && reply(n).Lost?)
      ensures n < |todo| ==> !reply(n).Done?
      ensures forall i :: 0 <= i < n ==> reply(i).Done?
      ensures n == |todo| <==> forall i :: 0 <= i < |todo| ==> reply(i).Done?
    {
      hide OldOrNew, Rewritten;
      n, changed, lost := 0, map[], false;
      NothingRewritten(before);
      while n < |todo|
        invariant n <= |todo| && rows == Rewritten(before, changed) && Watched(before, todo)
        invariant Stage(todo, changed, n, false, NONE_BACK) && !lost
        invariant forall i :: 0 <= i < n ==> reply(i).Done?
      {
        ForwardStep(todo, changed, n);
        var ok;
        ok, changed := UpdateKeyEncryption(todo[n].id, todo[n].newCT, reply(n), before, todo, changed);
        if !ok {
          lost := reply(n).Lost?;
          return;
        }
        n := n + 1;
      }
    }

    // Puts back the old ciphertexts of the first n keys, trying each whatever fails.
    method Restore(todo: seq<Pending>, n: nat, reply: nat -> Reply, ghost before: map<string, KeyRow>,
                   ghost changed: map<string, string>, ghost lost: bool)
      returns (ok: bool, ghost changed': map<string, string>)
      requires n <= |todo| && Stored(before, todo) && rows == Rewritten(before, changed) && Watched(before, todo)
      requires Stage(todo, changed, n, lost, NONE_BACK)
      modifies this
      ensures rows == Rewritten(before, changed') && Watched(before, todo)
      ensures Stage(todo, changed', n, lost, PutBack(n, reply))
      ensures ok <==> forall i :: 0 <= i < n ==> reply(i).Done?
    {
      hide OldOrNew, Rewritten, Stage;
      NoneBackYet(todo, changed, n, lost, reply);
      ok, changed' := true, changed;
      for j := 0 to n
        invariant rows == Rewritten(before, changed') && Watched(before, todo)
        invariant Stage(todo, changed', n, lost, PutBack(j, reply))
        invariant ok <==> forall i :: 0 <= i < j ==> reply(i).Done?
      {
        BackwardStep(todo, changed', j, n, lost, reply);
        var done;
        done, changed' := UpdateKeyEncryption(todo[j].id, todo[j].oldCT, reply(j), before, todo, changed');
        ok := ok && done;
      }
    }

    // All or nothing: on success every key of the user that is encrypted under the passphrase carries its
    // new ciphertext; on failure the written ones are put back.
    method RewrapPassphraseKeys(c: Crypto, user: string, oldPass: string, newPass: string, random: nat -> (seq<byte>,
                                seq<byte>),
                                write: nat -> Reply, restore: nat -> Reply)
      returns (r: Result<seq<Pending>, RewrapError>, ghost todo: seq<Pending>, ghost changed: map<string, string>,
               ghost n: nat, ghost lost: bool)
      requires c.Valid() && history == [] && forall i :: |random(i).0| == SALT_LEN && |random(i).1| == NONCE_LEN
      modifies this
      ensures AllPrepared(c, old(rows), user, oldPass, newPass, todo) && rows == Rewritten(old(rows), changed)
      ensures Watched(old(rows), todo)
      ensures r == Err(Unreadable) <==>
        exists id :: OwnedPassphraseKey(old(rows), user, id)
          && (oldPass == "" || newPass == "" || c.Decrypt(oldPass, old(rows)[id].ciphertext).None?)
      ensures r == Err(Unreadable) ==> changed == map[]
      ensures r == Err(Unreadable) <==> !AllReadable(c, old(rows), user, oldPass, newPass)
      ensures r == Err(WriteFailed) <==>
        && AllReadable(c, old(rows), user, oldPass, newPass)
        && exists i :: 0 <= i < |PassphraseKeys(old(rows), user)| && !write(i).Done?
      ensures r.Ok? ==> |todo| == |PassphraseKeys(old(rows), user)|
      ensures r.Ok? ==> r.value == todo && Stage(todo, changed, |todo|, false, NONE_BACK) && !lost
      ensures r.Ok? ==> forall id :: OwnedPassphraseKey(old(rows), user, id) ==> exists p :: p in todo && p.id == id
      ensures r == Err(WriteFailed) ==>
        && n < |todo| && (forall i :: 0 <= i < n ==> write(i).Done?) && !write(n).Done?
        && (lost <==> write(n).Lost?) && Stage(todo, changed, n, lost, PutBack(n, restore))
    {
      hide OldOrNew, Rewritten, Stage, Crypto.Decrypt, Crypto.Valid;
      ghost var before := rows;
      NothingRewritten(before);
      todo, changed, n, lost := [], map[], 0, false;
      var prepared := Prepare(c, user, oldPass, newPass, random);
      if prepared.None? {
        return Err(Unreadable), todo, changed, n, lost;
      }
      todo := prepared.value;
      PreparedAreStored(c, before, user, oldPass, newPass, todo);
      PreparedIsComplete(c, before, user, oldPass, newPass, todo);
      hide PassphraseKeys, OwnedPassphraseKey;
      var written;
      written, changed, lost := WriteAll(prepared.value, write, before);
      n := written;
      if written < |prepared.value| {
        var ok;
        ok, changed := Restore(prepared.value, written, restore, before, changed, lost);
        return Err(WriteFailed), todo, changed, n, lost;
      }
      return Ok(prepared.value), todo, changed, n, lost;
    }
  }

  // The listed keys exist under distinct ids.
  ghost predicate Stored(rows: map<string, KeyRow>, todo: seq<Pending>) {
    && (forall i, j :: 0 <= i < j < |todo| ==> todo[i].id != todo[j].id)
    && forall i :: 0 <= i < |todo| ==> todo[i].id in rows
  }

  lemma PreparedAreStored(c: Crypto, rows: map<string, KeyRow>, user: string, oldPass: string, newPass: string,
                          todo: seq<Pending>)
    requires AllPrepared(c, rows, user, oldPass, newPass, todo)
    ensures Stored(rows, todo)
  {
    forall i | 0 <= i < |todo|
      ensures todo[i].id in rows
    {
      assert todo[i] in todo;
    }
  }

  lemma NothingRewritten(rows: map<string, KeyRow>)
    ensures Rewritten(rows, map[]) == rows
  {
  }

  // Nothing has been put back, or what the first j restore writes put back.
  const NONE_BACK: nat -> bool := _ => false

  ghost function PutBack(j: nat, reply: nat -> Reply): nat -> bool {
    (i: nat) => i < j && !reply(i).Failed?
  }

  // The first n keys were written, and of these exactly the ones told by back put back; lost tells of one more
  // write that took effect unreported. No other key was touched.
  ghost predicate Stage(todo: seq<Pending>, changed: map<string, string>, n: nat, lost: bool, back: nat -> bool) {
    && n <= |todo| && (lost ==> n < |todo|)
    && (forall id :: id in changed ==> exists i :: 0 <= i < |todo| && todo[i].id == id && (i < n || (i == n && lost)))
    && (forall i :: 0 <= i < n ==> Entry(todo[i], changed, back(i)))
    && (lost ==> Entry(todo[n], changed, false))
  }

  ghost predicate Entry(p: Pending, changed: map<string, string>, back: bool) {
    p.id in changed && changed[p.id] == if back then p.oldCT else p.newCT
  }

  lemma NoneBackYet(todo: seq<Pending>, changed: map<string, string>, n: nat, lost: bool, reply: nat -> Reply)
    requires Stage(todo, changed, n, lost, NONE_BACK)
    ensures Stage(todo, changed, n, lost, PutBack(0, reply))
  {
    assert forall i :: 0 <= i < n ==> Entry(todo[i], changed, NONE_BACK(i));
  }

  lemma ForwardStep(todo: seq<Pending>, changed: map<string, string>, n: nat)
    requires n < |todo| && Stage(todo, changed, n, false, NONE_BACK)
    requires forall i, j :: 0 <= i < j < |todo| ==> todo[i].id != todo[j].id
    ensures var next := changed[todo[n].id := todo[n].newCT];
            Stage(todo, next, n + 1, false, NONE_BACK) && Stage(todo, next, n, true, NONE_BACK) && OldOrNew(todo, next)
  {
  }

  lemma BackwardStep(todo: seq<Pending>, changed: map<string, string>, j: nat, n: nat, lost: bool, reply: nat -> Reply)
    requires j < n && Stage(todo, changed, n, lost, PutBack(j, reply))
    requires forall i, k :: 0 <= i < k < |todo| ==> todo[i].id != todo[k].id
    ensures var next := changed[todo[j].id := todo[j].oldCT];
            && Stage(todo, if reply(j).Failed? then changed else next, n, lost, PutBack(j + 1, reply))
            && OldOrNew(todo, next)
  {
    if reply(j).Failed? {
      SameBack(todo, changed, n, lost, PutBack(j, reply), PutBack(j + 1, reply));
    } else {
      PutOneBack(todo, changed, j, n, lost, PutBack(j, reply), PutBack(j + 1, reply));
    }
    hide Stage, OldOrNew;
    StageIsOldOrNew(todo, changed, n, lost, PutBack(j, reply));
    StaysOldOrNew(todo, changed, todo[j]);
  }

  lemma StaysOldOrNew(todo: seq<Pending>, changed: map<string, string>, p: Pending)
    requires OldOrNew(todo, changed) && p in todo
    ensures OldOrNew(todo, changed[p.id := p.oldCT])
  {
  }

  lemma SameBack(todo: seq<Pending>, changed: map<string, string>, n: nat, lost: bool, back: nat -> bool,
                 back': nat -> bool)
    requires Stage(todo, changed, n, lost, back) && forall i :: 0 <= i < n ==> back'(i) == back(i)
    ensures Stage(todo, changed, n, lost, back')
  {
    assert forall i :: 0 <= i < n ==> Entry(todo[i], changed, back(i));
  }

  lemma PutOneBack(todo: seq<Pending>, changed: map<string, string>, j: nat, n: nat, lost: bool, back: nat -> bool,
                   back': nat -> bool)
    requires j < n && Stage(todo, changed, n, lost, back)
    requires forall i, k :: 0 <= i < k < |todo| ==> todo[i].id != todo[k].id
    requires back'(j) && forall i :: 0 <= i < n && i != j ==> back'(i) == back(i)
    ensures Stage(todo, changed[todo[j].id := todo[j].oldCT], n, lost, back')
  {
    var next := changed[todo[j].id := todo[j].oldCT];
    forall i | 0 <= i < n
      ensures Entry(todo[i], next, back'(i))
    {
      assert Entry(todo[i], changed, back(i));
    }
  }

  lemma StageIsOldOrNew(todo: seq<Pending>, changed: map<string, string>, n: nat, lost: bool, back: nat -> bool)
    requires Stage(todo, changed, n, lost, back)
    ensures OldOrNew(todo, changed)
  {
    forall id | id in changed
      ensures exists p :: p in todo && p.id == id && (changed[id] == p.oldCT || changed[id] == p.newCT)
    {
      var i :| 0 <= i < |todo| && todo[i].id == id && (i < n || (i == n && lost));
      assert todo[i] in todo && (i < n ==> Entry(todo[i], changed, back(i)));
    }
  }

  // ----- what the outcomes mean

  // A passphrase key of the user opens under the new passphrase to what it held; any other is as it was.
  ghost predicate KeyRewrapped(c: Crypto, before: map<string, KeyRow>, after: map<string, KeyRow>, user: string,
                               oldPass: string, newPass: string, id: string)
    requires id in before
  {
    && id in after
    && (OwnedPassphraseKey(before, user, id) ==>
          && OwnedPassphraseKey(after, user, id)
          && c.Decrypt(newPass, after[id].ciphertext) == c.Decrypt(oldPass, before[id].ciphertext)
          && c.Decrypt(oldPass, before[id].ciphertext).Some?)
    && (!OwnedPassphraseKey(before, user, id) ==> after[id] == before[id])
  }

  ghost predicate AllRewrapped(c: Crypto, before: map<string, KeyRow>, after: map<string, KeyRow>, user: string,
                               oldPass: string, newPass: string)
  {
    && after.Keys == before.Keys
    && forall id :: id in before ==> KeyRewrapped(c, before, after, user, oldPass, newPass, id)
  }

  // After success every passphrase key of the user opens under the new passphrase to what it held, and no
  // other key has changed.
  lemma SuccessReadable(c: Crypto, before: map<string, KeyRow>, user: string, oldPass: string, newPass: string,
                        todo: seq<Pending>, changed: map<string, string>, id: string)
    requires AllPrepared(c, before, user, oldPass, newPass, todo) && Stage(todo, changed, |todo|, false, NONE_BACK)
    requires forall id :: OwnedPassphraseKey(before, user, id) ==> exists p :: p in todo && p.id == id
    requires id in before
    ensures KeyRewrapped(c, before, Rewritten(before, changed), user, oldPass, newPass, id)
  {
    hide Crypto.Decrypt;
    if OwnedPassphraseKey(before, user, id) {
      var p :| p in todo && p.id == id;
      var i :| 0 <= i < |todo| && todo[i] == p;
      assert Entry(todo[i], changed, NONE_BACK(i)) && Prepared(c, before, user, oldPass, newPass, p);
    }
    forall x | x in changed
      ensures OwnedPassphraseKey(before, user, x)
    {
      var i :| 0 <= i < |todo| && todo[i].id == x;
      assert todo[i] in todo && Prepared(c, before, user, oldPass, newPass, todo[i]);
    }
  }

  // Of a key to re-wrap, nothing has changed, or the new ciphertext is the old one.
  predicate NoNews(p: Pending, back: bool) {
    back || p.newCT == p.oldCT
  }

  // After a failure the ciphertexts are as before exactly if every write was put back and the failed one had
  // no effect (but for writes that would have changed nothing).
  lemma FailureRestoresIff(c: Crypto, before: map<string, KeyRow>, user: string, oldPass: string, newPass: string,
                           todo: seq<Pending>, changed: map<string, string>, n: nat, lost: bool, back: nat -> bool)
    requires AllPrepared(c, before, user, oldPass, newPass, todo) && Stage(todo, changed, n, lost, back)
    ensures SameTexts(before, Rewritten(before, changed)) <==>
      (forall i :: 0 <= i < n ==> NoNews(todo[i], back(i))) && (lost ==> NoNews(todo[n], false))
  {
    hide Crypto.Decrypt;
    var after := Rewritten(before, changed);
    forall i | 0 <= i < |todo| && (i < n || (i == n && lost))
      ensures todo[i].id in before && todo[i].id in changed
      ensures after[todo[i].id].ciphertext == before[todo[i].id].ciphertext <==> NoNews(todo[i], i < n && back(i))
    {
      assert todo[i] in todo && Prepared(c, before, user, oldPass, newPass, todo[i]);
      assert i < n ==> Entry(todo[i], changed, back(i));
    }
    forall id | id in before && id in changed
      ensures exists i :: 0 <= i < |todo| && todo[i].id == id && (i < n || (i == n && lost))
    {
    }
  }

  // The rows are then wholly as before exactly when the restored keys were marked with the passphrase
  // method to begin with.
  lemma RestoredExactlyIff(c: Crypto, before: map<string, KeyRow>, user: string, oldPass: string, newPass: string,
                           todo: seq<Pending>, changed: map<string, string>, n: nat, back: nat -> bool)
    requires AllPrepared(c, before, user, oldPass, newPass, todo) && n <= |todo|
    requires Stage(todo, changed, n, false, back) && forall i :: 0 <= i < n ==> back(i)
    ensures Rewritten(before, changed) == before
            <==> forall i :: 0 <= i < n ==> todo[i].id in before && before[todo[i].id].encryption == PASSPHRASE_METHOD
  {
    hide Crypto.Decrypt;
    var after := Rewritten(before, changed);
    forall i | 0 <= i < n
      ensures todo[i].id in before && after[todo[i].id] == before[todo[i].id].(encryption := PASSPHRASE_METHOD)
    {
      assert todo[i] in todo && Prepared(c, before, user, oldPass, newPass, todo[i]);
      assert Entry(todo[i], changed, back(i));
    }
    if forall i :: 0 <= i < n ==> before[todo[i].id].encryption == PASSPHRASE_METHOD {
      forall id | id in before
        ensures after[id] == before[id]
      {
        if id in changed {
          var i :| 0 <= i < |todo| && todo[i].id == id && i < n;
        }
      }
      assert after == before;
    }
  }

  // In plain terms: what was encrypted for the user under the old passphrase opens under the new one to the
  // same, and a key of anybody else, or one not encrypted under a passphrase, is untouched.
  lemma RewrappedOpens(c: Crypto, before: map<string, KeyRow>, after: map<string, KeyRow>, user: string,
                       oldPass: string, newPass: string, id: string, plaintext: string, salt: seq<byte>,
                       nonce: seq<byte>)
    requires c.Valid() && |salt| == SALT_LEN && |nonce| == NONCE_LEN
    requires AllRewrapped(c, before, after, user, oldPass, newPass) && id in before
    ensures before[id].owner == user && before[id].ciphertext == c.Encrypt(oldPass, plaintext, salt, nonce) ==>
      id in after && c.Decrypt(newPass, after[id].ciphertext) == Some(plaintext)
    ensures before[id].owner != user || !(PASSPHRASE_PREFIX <= before[id].ciphertext) ==>
      id in after && after[id] == before[id]
  {
    hide Crypto.Decrypt, Crypto.Encrypt, Crypto.Valid;
    c.EncryptThenDecrypt(oldPass, plaintext, salt, nonce);
    assert KeyRewrapped(c, before, after, user, oldPass, newPass, id);
  }

  // ----- changing the password

  datatype ChangeError = TooShort | WrongPassword | RewrapFailed(error: RewrapError) | UpdateFailed

  const MIN_PASSWORD := 8

  class Accounts {
    const store: KeyStore
    var passwords: map<string, string>

    constructor (store: KeyStore, passwords: map<string, string>)
      ensures this.store == store && this.passwords == passwords
    {
      this.store, this.passwords := store, passwords;
    }

    // Every passphrase key of the user opens under the account's password.
    ghost predicate Readable(c: Crypto, user: string)
      requires user in passwords
      reads this, store
    {
      forall id :: OwnedPassphraseKey(store.rows, user, id) ==>
        c.Decrypt(passwords[user], store.rows[id].ciphertext).Some?
    }

    // If no write takes effect unreported and no restore write fails, the account can read its keys
    // afterwards whether the change went through or not.
    method ChangePassword(c: Crypto, user: string, current: string, newPass: string, random: nat -> (seq<byte>,
                          seq<byte>),
                          write: nat -> Reply, restore: nat -> Reply, update: Reply)
      returns (r: Result<nat, ChangeError>)
      requires c.Valid() && user in passwords && store.history == []
      requires forall i :: |random(i).0| == SALT_LEN && |random(i).1| == NONCE_LEN
      modifies this, store
      ensures var changed := r.Ok? || (r == Err(UpdateFailed) && update.Lost?);
              passwords == if changed then old(passwords)[user := newPass] else old(passwords)
      ensures r == Err(TooShort) <==> |newPass| < MIN_PASSWORD
      ensures r == Err(WrongPassword) <==> |newPass| >= MIN_PASSWORD && old(passwords)[user] != current
      ensures var reached := |newPass| >= MIN_PASSWORD && old(passwords)[user] == current;
              var readable := AllReadable(c, old(store.rows), user, current, newPass);
              var keys := PassphraseKeys(old(store.rows), user);
              var written := forall i :: 0 <= i < |keys| ==> write(i).Done?;
              && (r == Err(RewrapFailed(Unreadable)) <==> reached && !readable)
              && (r == Err(RewrapFailed(WriteFailed)) <==> reached && readable && !written)
              && (r == Err(UpdateFailed) <==> reached && readable && written && !update.Done?)
              && (r.Ok? <==> reached && readable && written && update.Done?)
              && (r.Ok? ==> r.value == |keys|)
      ensures r.Ok? ==> AllRewrapped(c, old(store.rows), store.rows, user, current, newPass) && Readable(c, user)
      ensures r.Err? && (forall i :: !write(i).Lost?) && (forall i :: !restore(i).Failed?) && !update.Lost? ==>
        SameTexts(old(store.rows), store.rows)
    {
      hide OldOrNew, Rewritten, Stage, Crypto.Decrypt, Crypto.Valid, AllPrepared, AllReadable, PassphraseKeys;
      if |newPass| < MIN_PASSWORD {
        return Err(TooShort);
      }
      if passwords[user] != current {
        return Err(WrongPassword);
      }
      ghost var before := store.rows;
      var rewrapped;
      ghost var todo, changed, n, lost;
      rewrapped, todo, changed, n, lost :=
        store.RewrapPassphraseKeys(c, user, current, newPass, random, write, restore);
      if rewrapped.Err? {
        if rewrapped.error.WriteFailed? {
          FailureRestoresIff(c, before, user, current, newPass, todo, changed, n, lost, PutBack(n, restore));
        } else {
          NothingRewritten(before);
        }
        return Err(RewrapFailed(rewrapped.error));
      }
      if !update.Failed? {
        passwords := passwords[user := newPass];
      }
      if !update.Done? {
        PreparedAreStored(c, before, user, current, newPass, todo);
        var ok;
        ok, changed := store.Restore(rewrapped.value, |rewrapped.value|, restore, before, changed, false);
        FailureRestoresIff(c, before, user, current, newPass, todo, changed, |todo|, false, PutBack(|todo|, restore));
        return Err(UpdateFailed);
      }
      SuccessMeans(c, before, user, current, newPass, todo, changed);
      return Ok(|rewrapped.value|);
    }
  }

  predicate SameTexts(before: map<string, KeyRow>, after: map<string, KeyRow>) {
    after.Keys == before.Keys && forall id :: id in before ==> after[id].ciphertext == before[id].ciphertext
  }

  lemma SuccessMeans(c: Crypto, before: map<string, KeyRow>, user: string, oldPass: string, newPass: string,
                     todo: seq<Pending>, changed: map<string, string>)
    requires AllPrepared(c, before, user, oldPass, newPass, todo) && Stage(todo, changed, |todo|, false, NONE_BACK)
    requires forall id :: OwnedPassphraseKey(before, user, id) ==> exists p :: p in todo && p.id == id
    ensures AllRewrapped(c, before, Rewritten(before, changed), user, oldPass, newPass)
  {
    forall id | id in before
      ensures KeyRewrapped(c, before, Rewritten(before, changed), user, oldPass, newPass, id)
    {
      SuccessReadable(c, before, user, oldPass, newPass, todo, changed, id);
    }
  }
}
