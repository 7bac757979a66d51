/**
 KeyringCredentials itself, command by command. How each command ends is given from outside; a command
 that stops the process is the last thing a method does.
 */
module CredentialStore {
  import opened Text
  import opened Credentials

  class KeyringCredentials {
    var manifest: Option<Manifest>
    var parts: map<PartKey, Bytes>

    ghost function View(): Keyring
      reads this
    {
      Keyring(manifest, parts)
    }

    constructor ()
      ensures View() == Keyring(None, map[])
    {
      manifest, parts := None, map[];
    }

    method StorePart(key: PartKey, data: Bytes, ending: Ending)
      modifies this`parts
      ensures parts == if TookEffect(ending) then old(parts)[key := data] else old(parts)
    {
      if TookEffect(ending) {
        parts := parts[key := data];
      }
    }

    method StoreManifest(m: Manifest, ending: Ending)
      modifies this`manifest
      ensures manifest == if TookEffect(ending) then Some(m) else old(manifest)
    {
      if TookEffect(ending) {
        manifest := Some(m);
      }
    }

    method ClearGeneration(generation: string, clearing: Clearing)
      modifies this`parts
      ensures View() == Clear(old(View()), generation, clearing)
    {
      parts := map p | p in parts && (p.generation != generation || (!clearing.ending.Done? && p in clearing.survivors)) :: parts[p];
    }

    /** Lookups are numbered from the manifest on; those from number readable on fail. */
    method Restore(valid: Bytes -> bool, digest: Bytes -> string, readable: nat) returns (restored: Restored)
      ensures restored == Unavailable || restored == Contents(valid, digest, View())
      ensures readable > (if manifest.Some? then manifest.value.parts else 0) ==> restored == Contents(valid, digest, View())
    {
      hide PartCount;
      if readable == 0 {
        return Unavailable;
      }
      if manifest.None? {
        return MissingCredential;
      }
      var m := manifest.value;
      if !WellFormed(m) {
        return InvalidCredential;
      }
      var data: Bytes := [];
      for part := 0 to m.parts
        invariant Joined(View(), m, part) == Some(data) && |data| <= m.size
      {
        if part + 1 >= readable {
          return Unavailable;
        }
        var key := PartKey(m.generation, part);
        NotJoinedLater(View(), m, part + 1, m.parts);
        if key !in parts || |parts[key]| != Min(PART_SIZE, m.size - |data|) {
          return InvalidCredential;
        }
        data := data + parts[key];
      }
      if digest(data) != m.digest || !valid(data) {
        return InvalidCredential;
      }
      return Credential(data, Baseline(m.generation, m.digest));
    }

    /** Save, with the file's bytes and the home's baseline already read. */
    method Save(valid: Bytes -> bool, digest: Bytes -> string, data: Bytes, baseline: Option<Baseline>, generation: string, script: Script)
      returns (kept: Option<Baseline>, saved: Saved)
      modifies this
      ensures SaveResult(View(), kept, saved) == Credentials.Save(valid, digest, old(View()), data, baseline, generation, script)
    {
      hide PartCount, Chunk, WellFormed, Clear;
      kept := None;
      if !valid(data) || !script.readable || (manifest.Some? && !WellFormed(manifest.value)) {
        return None, SaveFailed;
      }
      var prior, sum := manifest, digest(data);
      if baseline.Some? {
        if prior.None? {
          return None, SaveFailed;
        }
        if baseline.value.digest == sum || baseline.value.generation != prior.value.generation {
          return None, Unchanged;
        }
      }
      var m := Manifest(generation, |data|, PartCount(|data|), sum);
      for part := 0 to m.parts
        invariant View() == WithParts(old(View()), generation, data, part)
        invariant part <= script.stopAt || script.stop.Done?
      {
        var ending := if part == script.stopAt then script.stop else Done;
        StorePart(PartKey(generation, part), Chunk(data, part), ending);
        if ending.Stopped? {
          return None, ProcessStopped;
        }
        if ending.Failed? {
          ClearGeneration(generation, script.clearing);
          return None, if script.clearing.ending.Stopped? then ProcessStopped else SaveFailed;
        }
      }
      StoreManifest(m, script.commit);
      if !script.commit.Done? {
        return None, if script.commit.Stopped? then ProcessStopped else SaveFailed;
      }
      if prior.Some? {
        ClearGeneration(prior.value.generation, script.clearing);
        if !script.clearing.ending.Done? {
          return None, if script.clearing.ending.Stopped? then ProcessStopped else SaveFailed;
        }
      }
      if TookEffect(script.written) {
        kept := Some(Baseline(generation, sum));
      }
      return kept, match script.written case Done => Committed case Failed(_) => SaveFailed case Stopped(_) => ProcessStopped;
    }
  }

  /** Once a part is missing or of the wrong size, nothing can be joined past it. */
  lemma {:induction false} NotJoinedLater(k: Keyring, m: Manifest, i: nat, n: nat)
    requires i <= n
    ensures Joined(k, m, i).None? ==> Joined(k, m, n).None?
    decreases n
  {
    if i < n { NotJoinedLater(k, m, i, n - 1); }
  }
}
