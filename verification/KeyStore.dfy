/** The key directory: HITLS_APP_RmvKey, DeleteKeyByUuidList, DeleteKey, IsP12File, GetAllKeyUuids
    and EraseAllKeys of app_keymgmt.c, on a file system that does what it is told. */
module KeyStore {
  import opened Strings
  import opened KeyUuid

  const SUFFIX: string := ".p12"
  const FILE_MAX_SIZE: nat := 256 * 1024

  /** A directory entry; `K` is what a key file holds. */
  datatype Entry<K> = File(size: nat, content: K) | NotRegular

  datatype Status = Success | InvalidArg | BslFail | UioFail | MemAllocFail

  type Files<K> = map<string, Entry<K>>

  function FileName(uuid: string): string { uuid + SUFFIX }

  lemma FileNameInjective(a: string, b: string)
    requires FileName(a) == FileName(b)
    ensures a == b
  {
    assert a == FileName(a)[..|FileName(a)| - 4];
    assert b == FileName(b)[..|FileName(b)| - 4];
  }

  /** Erasing overwrites a regular file of 1 byte to 256 KiB: an empty one has no zero buffer to
      allocate and a larger one is refused. */
  predicate Erasable<K>(files: Files<K>, name: string) {
    name in files && files[name].File? && 1 <= files[name].size <= FILE_MAX_SIZE
  }

  predicate IsKeyFileName(name: string) {
    |name| == UUID_CHARS + |SUFFIX| && name[UUID_CHARS..] == SUFFIX
    && forall i | 0 <= i < UUID_CHARS :: IsHexChar(name[i])
  }

  lemma KeyFileNameIff(name: string)
    ensures IsKeyFileName(name) <==> exists u :: IsUuid(u) && name == FileName(u)
  {
    if IsKeyFileName(name) {
      var u := name[..UUID_CHARS];
      assert IsUuid(u) && name == FileName(u);
    }
    if u :| IsUuid(u) && name == FileName(u) {
      assert name[UUID_CHARS..] == SUFFIX;
      assert forall i | 0 <= i < UUID_CHARS :: name[i] == u[i];
    }
  }

  method IsP12File(file: CString) returns (ok: bool)
    ensures ok <==> IsKeyFileName(file)
    ensures ok <==> |file| == 68 && file[64..] == ".p12" && forall i | 0 <= i < 64 :: DigitValue(file[i] as int).Some?
  {
    if |file| != UUID_CHARS + |SUFFIX| {
      return false;
    }
    if file[|file| - |SUFFIX|..] != SUFFIX {
      return false;
    }
    for i := 0 to UUID_CHARS
      invariant forall k | 0 <= k < i :: IsHexChar(file[k])
    {
      if !IsHexChar(file[i]) {
        return false;
      }
    }
    return true;
  }

  // ---- deleting a list ----

  function NamesOf(us: seq<string>): set<string> {
    set i | 0 <= i < |us| :: FileName(us[i])
  }

  /** Element `k` can be removed after its predecessors were. */
  predicate Removable<K>(files: Files<K>, us: seq<string>, k: nat)
    requires k < |us|
  {
    IsUuid(us[k]) && Erasable(files, FileName(us[k])) && us[k] !in us[..k]
  }

  /** How many elements are removed before the first that cannot be. */
  function RemovableCount<K>(files: Files<K>, us: seq<string>, k: nat): (n: nat)
    requires k <= |us|
    ensures k <= n <= |us|
    ensures forall i | k <= i < n :: Removable(files, us, i)
    ensures n < |us| ==> !Removable(files, us, n)
    decreases |us| - k
  {
    if k < |us| && Removable(files, us, k) then RemovableCount(files, us, k + 1) else k
  }

  predicate Distinct(us: seq<string>) {
    forall i, j | 0 <= i < j < |us| :: us[i] != us[j]
  }

  /** The whole list goes exactly when its members are well formed, pairwise distinct and present. */
  lemma AllRemovableIff<K>(files: Files<K>, us: seq<string>)
    ensures RemovableCount(files, us, 0) == |us| <==>
            AllUuids(us) && Distinct(us) && forall i | 0 <= i < |us| :: Erasable(files, FileName(us[i]))
  {
    var n := RemovableCount(files, us, 0);
    if n == |us| {
      forall i | 0 <= i < |us| ensures IsUuid(us[i]) && Erasable(files, FileName(us[i])) {
        assert Removable(files, us, i);
      }
      forall i, j | 0 <= i < j < |us| ensures us[i] != us[j] {
        assert Removable(files, us, j) && us[..j][i] == us[i];
      }
    } else {
      assert !Removable(files, us, n);
      if us[n] in us[..n] {
        var i :| 0 <= i < n && us[..n][i] == us[n];
      }
    }
  }

  class Directory<K(!new)> {
    var files: Files<K>

    constructor (files: Files<K>)
      ensures this.files == files
    {
      this.files := files;
    }

    method EraseKeyFile(name: string) returns (ret: Status)
      ensures ret == Success <==> name in files && files[name].File? && 1 <= files[name].size <= 262144
    {
      if name !in files {
        return BslFail;
      }
      if files[name].NotRegular? {
        return UioFail;
      }
      if files[name].size > FILE_MAX_SIZE {
        return UioFail;
      }
      if files[name].size == 0 {
        return MemAllocFail;
      }
      return Success;
    }

    method RmvKey(uuid: CString) returns (ret: Status)
      modifies this
      ensures ret == Success <==> IsUuid(uuid) && Erasable(old(files), FileName(uuid))
      ensures files == if ret == Success then old(files) - {uuid + ".p12"} else old(files)
    {
      var ok := IsValidKeyUuid(uuid);
      if !ok {
        return InvalidArg;
      }
      ret := EraseKeyFile(FileName(uuid));
      if ret != Success {
        return;
      }
      files := files - {FileName(uuid)};
    }

    /** Removes the members in order and stops at the first that cannot be removed. */
    method DeleteKeyByUuidList(us: seq<CString>) returns (ret: Status)
      modifies this
      ensures ret == Success <==> RemovableCount(old(files), us, 0) == |us|
      ensures files == old(files) - NamesOf(us[..RemovableCount(old(files), us, 0)])
    {
      hide IsUuid;
      ghost var before := files;
      for k := 0 to |us|
        invariant files == before - NamesOf(us[..k])
        invariant RemovableCount(before, us, k) == RemovableCount(before, us, 0)
      {
        NextRemovable(before, us, k);
        ret := RmvKey(us[k]);
        if ret != Success {
          return;
        }
      }
      assert us[..|us|] == us;
      return Success;
    }

    /** DeleteKey: parse the list, then delete its members. */
    method DeleteKey(list: CString) returns (ret: Status)
      modifies this
      ensures !IsUuidList(list) ==> ret == InvalidArg && files == old(files)
      ensures IsUuidList(list) ==>
        var us := Split(list, ',');
        && (ret == Success <==> Distinct(us) && forall i | 0 <= i < |us| :: Erasable(old(files), FileName(us[i])))
        && files == old(files) - NamesOf(us[..RemovableCount(old(files), us, 0)])
        && (ret == Success ==> files == old(files) - NamesOf(us))
    {
      hide Split, IsUuid;
      var split := SplitUuidString(list);
      if split.None? {
        return InvalidArg;
      }
      UuidsAreCStrings(split.value);
      AllRemovableIff(files, split.value);
      ret := DeleteKeyByUuidList(split.value);
      assert split.value[..|split.value|] == split.value;
    }

    /** The UUIDs of the regular files named like keys, in the order the directory lists them. */
    method GetAllKeyUuids(listing: seq<CString>) returns (us: seq<CString>)
      requires forall i | 0 <= i < |listing| :: listing[i] in files
      ensures us == KeyUuids(files, listing)
    {
      us := [];
      for k := 0 to |listing|
        invariant us + KeyUuids(files, listing[k..]) == KeyUuids(files, listing)
      {
        assert listing[k..][1..] == listing[k + 1..];
        var ok := IsP12File(listing[k]);
        if files[listing[k]].File? && ok {
          us := us + [listing[k][..UUID_CHARS]];
        }
      }
    }

    /** Removes exactly the key files, provided each can be erased; `listing` is any order in
        which the directory may be read. */
    method EraseAllKeys(listing: seq<CString>) returns (ret: Status)
      requires Lists(files, listing)
      modifies this
      ensures ret == Success <==> forall name | IsKeyFile(old(files), name) :: Erasable(old(files), name)
      ensures var us := KeyUuids(old(files), listing); files == old(files) - NamesOf(us[..RemovableCount(old(files), us, 0)])
      ensures ret == Success ==> files == map name | name in old(files) && !IsKeyFile(old(files), name) :: old(files)[name]
      ensures forall name | name in old(files) && !IsKeyFile(old(files), name) :: name in files && files[name] == old(files)[name]
    {
      hide IsUuid, IsKeyFileName;
      assert forall i | 0 <= i < |listing| :: listing[i] in files;
      var us := GetAllKeyUuids(listing);
      ListedKeys(files, listing);
      ListedDistinct(files, listing);
      AllRemovableIff(files, us);
      ghost var before := files;
      ghost var n := RemovableCount(files, us, 0);
      ret := DeleteKeyByUuidList(us);
      PrefixNames(us, n);
      assert us[..|us|] == us;
    }
  }

  lemma PrefixNames(us: seq<string>, n: nat)
    requires n <= |us|
    ensures NamesOf(us[..n]) <= NamesOf(us)
  {
  }

  lemma NextRemovable<K>(before: Files<K>, us: seq<string>, k: nat)
    requires k < |us|
    ensures NamesOf(us[..k + 1]) == NamesOf(us[..k]) + {FileName(us[k])}
    ensures Erasable(before - NamesOf(us[..k]), FileName(us[k])) <==> Erasable(before, FileName(us[k])) && us[k] !in us[..k]
  {
    var names := NamesOf(us[..k]);
    assert us[..k + 1] == us[..k] + [us[k]];
    if FileName(us[k]) in names {
      var i :| 0 <= i < k && FileName(us[..k][i]) == FileName(us[k]);
      FileNameInjective(us[i], us[k]);
    }
    if us[k] in us[..k] {
      var i :| 0 <= i < k && us[..k][i] == us[k];
      assert FileName(us[..k][i]) in names;
    }
  }

  lemma UuidsAreCStrings(us: seq<string>)
    requires AllUuids(us)
    ensures forall i | 0 <= i < |us| :: '\0' !in us[i]
  {
  }

  // ---- erasing everything ----

  /** `listing` names every entry once. */
  ghost predicate Lists<K>(files: Files<K>, listing: seq<string>) {
    && (forall i | 0 <= i < |listing| :: listing[i] in files)
    && (forall name | name in files :: name in listing)
    && Distinct(listing)
  }

  predicate IsKeyFile<K>(files: Files<K>, name: string) {
    name in files && files[name].File? && IsKeyFileName(name)
  }

  function KeyUuids<K>(files: Files<K>, listing: seq<string>): seq<string> {
    if listing == [] then []
    else
      var rest := KeyUuids(files, listing[1..]);
      if IsKeyFile(files, listing[0]) then [listing[0][..UUID_CHARS]] + rest else rest
  }

  lemma {:induction false} KeyUuidsListed<K>(files: Files<K>, listing: seq<string>)
    ensures AllUuids(KeyUuids(files, listing))
    ensures forall name :: name in NamesOf(KeyUuids(files, listing)) <==> name in listing && IsKeyFile(files, name)
  {
    if listing != [] {
      KeyUuidsListed(files, listing[1..]);
      var head, rest := listing[0], KeyUuids(files, listing[1..]);
      assert listing == [head] + listing[1..];
      if IsKeyFile(files, head) {
        var u := head[..UUID_CHARS];
        assert FileName(u) == head;
        PrependUuids(u, rest);
        PrependName(u, rest);
      }
    }
  }

  lemma PrependName(u: string, rest: seq<string>)
    ensures NamesOf([u] + rest) == {FileName(u)} + NamesOf(rest)
  {
    var all := [u] + rest;
    assert forall i | 0 <= i < |rest| :: all[i + 1] == rest[i];
    forall name | name in NamesOf(rest) ensures name in NamesOf(all) {
      var i :| 0 <= i < |rest| && name == FileName(rest[i]);
      assert name == FileName(all[i + 1]);
    }
    assert FileName(all[0]) in NamesOf(all);
  }

  lemma ListedKeys<K>(files: Files<K>, listing: seq<string>)
    requires Lists(files, listing)
    ensures AllUuids(KeyUuids(files, listing))
    ensures forall name :: name in NamesOf(KeyUuids(files, listing)) <==> IsKeyFile(files, name)
  {
    KeyUuidsListed(files, listing);
  }

  lemma {:induction false} ListedDistinct<K>(files: Files<K>, listing: seq<string>)
    requires Distinct(listing)
    ensures Distinct(KeyUuids(files, listing))
  {
    if listing != [] {
      var head, rest := listing[0], KeyUuids(files, listing[1..]);
      ListedDistinct(files, listing[1..]);
      if IsKeyFile(files, head) {
        KeyUuidsListed(files, listing[1..]);
        var u := head[..UUID_CHARS];
        assert FileName(u) == head;
        forall j | 0 <= j < |listing[1..]| ensures listing[1..][j] != head {
          assert listing[1..][j] == listing[j + 1];
        }
        forall i | 0 <= i < |rest| ensures rest[i] != u {
          assert FileName(rest[i]) in NamesOf(rest);
        }
        PrependDistinct(u, rest);
      }
    }
  }

  lemma PrependDistinct(u: string, rest: seq<string>)
    requires Distinct(rest) && forall i | 0 <= i < |rest| :: rest[i] != u
    ensures Distinct([u] + rest)
  {
  }
}
