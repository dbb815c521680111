/** The cleanup protocol of src/command/init.c and src/command/create.c. Calls into foreign code, and every other
    call that can fail, fail or succeed as they like. */
module Commands {
  import opened Wrappers
  import opened AtexitChain
  import R = RecordFile

  /* ---------- pk init ---------- */

  // The flags of cmd_init and the cipher config as the options have left it
  datatype InitOptions = InitOptions(encrypt: bool, cmdkey: bool, remember: int, force: bool,
                                     kdf: Option<string>, hmac: Option<string>,
                                     kdfIter: nat, pageSize: nat, compatibility: nat)

  const CPRDEF_KDF_ALGORITHM: string := "PBKDF2_HMAC_SHA512"
  const CPRDEF_HMAC_ALGORITHM: string := "HMAC_SHA512"
  const CPRDEF_KDF_ITER: nat := 256000
  const CPRDEF_PAGE_SIZE: nat := 4096
  const CPRDEF_COMPATIBILITY: nat := 4

  const KDF_ALGORITHMS: seq<string> := [CPRDEF_KDF_ALGORITHM, "PBKDF2_HMAC_SHA256", "PBKDF2_HMAC_SHA1"]
  const HMAC_ALGORITHMS: seq<string> := [CPRDEF_HMAC_ALGORITHM, "HMAC_SHA256", "HMAC_SHA1"]

  function Power2(k: nat): nat {
    if k == 0 then 1 else 2 * Power2(k - 1)
  }

  predicate IsPower2(x: nat) {
    x == 1 || (x > 0 && x % 2 == 0 && IsPower2(x / 2))
  }

  lemma {:induction false} Power2IsPower2(k: nat)
    ensures IsPower2(Power2(k)) && Power2(k) > 0
  {
    if k > 0 {
      Power2IsPower2(k - 1);
    }
  }

  lemma {:induction false} IsPower2Means(x: nat)
    requires IsPower2(x)
    ensures exists k: nat :: x == Power2(k)
  {
    if x == 1 {
      assert x == Power2(0);
    } else {
      IsPower2Means(x / 2);
      var k: nat :| x / 2 == Power2(k);
      assert x == Power2(k + 1);
    }
  }

  // What the chain can hold when pk init gives up
  const INIT_CHAINS: set<seq<Handler>> := {[], [DestroyKey], [RmCc], [RmDb], [RmDb, RmCc]}

  // The two states differ in no file outside fs
  ghost predicate SameBut(fs: set<File>, before: set<File>, after: set<File>) {
    forall f :: f !in fs ==> (f in after <==> f in before)
  }

  // avail_file_path_or_die
  method AvailFilePath(w: World, f: File, force: bool) returns (ok: bool)
    modifies w
    ensures w.ran == old(w.ran) && w.created == old(w.created)
    ensures w.files == old(w.files) || (force && w.files == old(w.files) - {f})
    ensures ok ==> f !in w.files
  {
    if f in w.files {
      var removed: bool := *;
      if !force || !removed {
        return false;
      }
      w.Unlink({f});
    }
    ok := *;
  }

  predicate IsUsable(o: InitOptions, usePassphrase: bool) {
    && (usePassphrase && o.kdf.Some? ==> o.kdf.value in KDF_ALGORITHMS)
    && (o.hmac.Some? ==> o.hmac.value in HMAC_ALGORITHMS)
    && (512 <= o.pageSize <= 65536 || !IsPower2(o.pageSize))
    && 1 <= o.compatibility <= CPRDEF_COMPATIBILITY
  }

  // A typed passphrase is kept only on demand, any other key unless --no-remember is given
  predicate WantsConfig(o: InitOptions, usePassphrase: bool) {
    || (usePassphrase && o.kdf.Some? && o.kdf.value != CPRDEF_KDF_ALGORITHM)
    || (o.hmac.Some? && o.hmac.value != CPRDEF_HMAC_ALGORITHM)
    || (usePassphrase && o.kdfIter != CPRDEF_KDF_ITER)
    || o.pageSize != CPRDEF_PAGE_SIZE || o.compatibility != CPRDEF_COMPATIBILITY
    || (!usePassphrase && o.remember != 0) || o.remember == 1
  }

  // The checks on the cipher options, between the push and the pop of destroy_key
  method CheckCipherOptions(o: InitOptions, usePassphrase: bool) returns (ok: bool, useCc: bool)
    ensures ok <==> IsUsable(o, usePassphrase)
    ensures ok ==> (useCc <==> WantsConfig(o, usePassphrase))
  {
    hide IsPower2;
    useCc := false;
    // on a key that is no passphrase the KDF options have no effect
    if o.kdf.Some? && usePassphrase {
      if o.kdf.value !in KDF_ALGORITHMS {
        return false, useCc;
      }
      useCc := useCc || o.kdf.value != CPRDEF_KDF_ALGORITHM;
    }
    if o.hmac.Some? {
      if o.hmac.value !in HMAC_ALGORITHMS {
        return false, useCc;
      }
      useCc := useCc || o.hmac.value != CPRDEF_HMAC_ALGORITHM;
    }
    if o.kdfIter != CPRDEF_KDF_ITER && usePassphrase {
      useCc := true;
    }
    if !(512 <= o.pageSize <= 65536) && IsPower2(o.pageSize) {
      return false, useCc;
    }
    useCc := useCc || o.pageSize != CPRDEF_PAGE_SIZE;
    if !(1 <= o.compatibility <= CPRDEF_COMPATIBILITY) {
      return false, useCc;
    }
    useCc := useCc || o.compatibility != CPRDEF_COMPATIBILITY;
    // -1, the value when --remember is not given, counts as true for a key that is no passphrase
    useCc := useCc || (!usePassphrase && o.remember != 0) || o.remember == 1;
    ok := true;
  }

  // The key and the cipher config; persisted says whether the config file was written for good
  method SetUpEncryption(w: World, chain: Chain, o: InitOptions)
      returns (ok: bool, persisted: bool, usePassphrase: bool)
    requires chain.Valid() && chain.fns == [] && (o.encrypt || o.cmdkey)
    modifies w, chain
    ensures chain.Valid() && w.ran == old(w.ran)
    ensures ok ==> chain.fns == (if persisted then [RmCc] else [])
    ensures ok && persisted && !o.force ==> Cc !in old(w.files)
    ensures ok ==> w.files == old(w.files) + (if persisted then {Cc} else {})
    ensures !ok ==> chain.fns == [] || chain.fns == [DestroyKey] || chain.fns == [RmCc]
    ensures !ok && chain.fns != [RmCc] ==> w.files == old(w.files) || (o.force && w.files == old(w.files) - {Cc})
    ensures !ok && chain.fns == [RmCc] ==> w.files - {Cc} == old(w.files) - {Cc} && (!o.force ==> Cc !in old(w.files))
    ensures w.created <= old(w.created) + {Cc} && (w.created != old(w.created) ==> chain.fns == [RmCc])
    ensures usePassphrase ==> o.cmdkey
    ensures ok ==> (persisted <==> (o.encrypt || o.cmdkey) && WantsConfig(o, usePassphrase))
    ensures ok && (o.encrypt || o.cmdkey) ==> IsUsable(o, usePassphrase)
  {
    hide IsUsable, WantsConfig;
    persisted, usePassphrase := false, false;
    var haveKey: bool := *;
    if !haveKey {
      return false, persisted, usePassphrase;
    }
    if o.cmdkey {
      // what was typed may be a blob key; a random key always is one
      usePassphrase := *;
    }
    chain.Push(DestroyKey);
    var useCc;
    ok, useCc := CheckCipherOptions(o, usePassphrase);
    if !ok {
      return;
    }
    var _ := chain.Pop();
    if !useCc {
      return;
    }
    ok := AvailFilePath(w, Cc, o.force);
    if !ok {
      return;
    }
    chain.Push(RmCc);
    ok := w.MayCreate(Cc);
    persisted := ok;
  }

  // cmd_init: returns whether it came to its end
  method CmdInit(w: World, chain: Chain, o: InitOptions) returns (ok: bool, persisted: bool, usePassphrase: bool)
    requires chain.Valid() && chain.fns == [] && w.created == {}
    modifies w, chain
    ensures chain.Valid() && w.ran == old(w.ran)
    ensures ok ==> chain.fns == [] && w.files == old(w.files) + {Db} + (if persisted then {Cc} else {})
    ensures w.created <= {Db, Cc}
    ensures !ok ==> chain.fns in INIT_CHAINS
    ensures !ok ==> w.created <= RemovesAll(chain.fns)
    ensures !ok ==> w.files - RemovesAll(chain.fns) <= old(w.files)
    ensures !ok ==> old(w.files) - {Db, Cc} <= w.files - RemovesAll(chain.fns)
    ensures !ok && !o.force ==> w.files - RemovesAll(chain.fns) == old(w.files)
    ensures ok && !o.force ==> Db !in old(w.files)
    ensures usePassphrase ==> o.cmdkey
    ensures ok ==> (persisted <==> (o.encrypt || o.cmdkey) && WantsConfig(o, usePassphrase))
    ensures ok && (o.encrypt || o.cmdkey) ==> IsUsable(o, usePassphrase)
  {
    hide RemovesAll, IsUsable, WantsConfig;
    RemovesFew();
    persisted, usePassphrase := false, false;
    var parsed: bool := *;
    if !parsed {
      return false, persisted, usePassphrase;
    }
    ok := AvailFilePath(w, Db, o.force);
    if !ok {
      return;
    }
    if o.encrypt || o.cmdkey {
      ok, persisted, usePassphrase := SetUpEncryption(w, chain, o);
      if !ok {
        return;
      }
    }
    chain.Push(RmDb);
    assert chain.fns == if persisted then [RmDb, RmCc] else [RmDb];
    // open, key, cipher settings, table creation: each may fail, and any may be the one that creates the file
    ok := w.MayCreate(Db);
    if !ok {
      return;
    }
    ok := *;
    if !ok {
      return;
    }
    var _ := chain.Pop();
    var _ := chain.Pop();
  }

  // main around cmd_init: whatever ends the process, the chain is applied
  method RunInit(w: World, o: InitOptions) returns (ok: bool, persisted: bool, usePassphrase: bool)
    requires w.created == {} && w.ran == []
    modifies w
    // success keeps what was created, and runs no handler
    ensures ok ==> w.files == old(w.files) + {Db} + (if persisted then {Cc} else {}) && w.ran == []
    // on failure the handlers of this run have run, the last pushed first
    ensures !ok ==> w.ran in INIT_CHAINS
    ensures !ok ==> w.created <= RemovesAll(w.ran)
    // failure leaves no file that this run created
    ensures !ok ==> w.created !! w.files && w.files <= old(w.files) && old(w.files) - {Db, Cc} <= w.files
    // without --force nothing is lost either way
    ensures !o.force ==> old(w.files) <= w.files
    ensures !ok && !o.force ==> w.files == old(w.files)
    // a key that was not typed is never a passphrase
    ensures usePassphrase ==> o.cmdkey
    // exactly when the config is written
    ensures ok && !o.encrypt && !o.cmdkey ==> !persisted
    ensures ok && (o.encrypt || o.cmdkey) ==> (persisted <==>
      || (usePassphrase && o.kdf.Some? && o.kdf.value != "PBKDF2_HMAC_SHA512")
      || (o.hmac.Some? && o.hmac.value != "HMAC_SHA512")
      || (usePassphrase && o.kdfIter != 256000)
      || o.pageSize != 4096
      || o.compatibility != 4
      || (!usePassphrase && o.remember != 0)
      || o.remember == 1)
    // and no database is made with options that it could not use
    ensures ok && (o.encrypt || o.cmdkey) && o.hmac.Some? ==>
      o.hmac.value in ["HMAC_SHA512", "HMAC_SHA256", "HMAC_SHA1"]
    ensures ok && usePassphrase && o.kdf.Some? ==>
      o.kdf.value in ["PBKDF2_HMAC_SHA512", "PBKDF2_HMAC_SHA256", "PBKDF2_HMAC_SHA1"]
    ensures ok && (o.encrypt || o.cmdkey) ==>
      1 <= o.compatibility <= 4 && (512 <= o.pageSize <= 65536 || forall k: nat :: o.pageSize != Power2(k))
  {
    hide IsPower2;
    forall k: nat
      ensures IsPower2(Power2(k))
    {
      Power2IsPower2(k);
    }
    var chain := new Chain();
    ok, persisted, usePassphrase := CmdInit(w, chain, o);
    ghost var left := chain.fns;
    chain.Apply(w);
    assert w.ran == left;
  }

  /* ---------- pk create ---------- */

  // use_editor is -1 when neither --nano nor --no-nano is given; rec holds the fields that are
  datatype CreateOptions = CreateOptions(useEditor: int, rec: R.Record, cmdkey: bool)

  predicate IsIncomplete(o: CreateOptions) {
    R.IsIncomplete(o.rec)
  }

  predicate SetsUpEditor(o: CreateOptions) {
    (o.useEditor == -1 && IsIncomplete(o)) || o.useEditor == 1
  }

  // The editor is wanted with --nano, or without --no-nano when the site name or the password is missing
  lemma EditorIsWanted(o: CreateOptions)
    ensures SetsUpEditor(o) <==>
      o.useEditor == 1 || (o.useEditor == -1 && (R.IsBlank(o.rec[0]) || R.IsBlank(o.rec[3])))
    ensures IsIncomplete(o) <==> R.IsBlank(o.rec[0]) || R.IsBlank(o.rec[3])
  {
  }

  // Writing the template, the editor, and reading the file back
  method EditRecord(w: World) returns (ok: bool)
    modifies w
    ensures w.files == old(w.files) || w.files == old(w.files) + {TmpRec}
    ensures w.ran == old(w.ran) && w.created == old(w.created) + (w.files - old(w.files))
    ensures ok ==> TmpRec in w.files
  {
    ok := w.MayCreate(TmpRec);
    if !ok {
      return;
    }
    var edited: bool := *;
    if !edited {
      return false;
    }
    // read_record_file, and the required fields it must have found
    ok := *;
  }

  // The cipher config is looked for, read and decoded, and the key applied; no file is written
  method OpenDatabase(w: World, o: CreateOptions) returns (ok: bool)
    ensures ok ==> Db in w.files
  {
    var isOpen: bool := *;
    if !isOpen || Db !in w.files {
      return false;
    }
    var found: bool := *;
    if !found {
      return false;
    }
    var useCipherConfig: bool := Cc in w.files;
    if !useCipherConfig && !o.cmdkey {
      return true;
    }
    ok := *;
  }

  // The statements; SQLite may make and remove its journal at any of them. cleans says whether the journal is gone once
  // the transaction has been ended and the database closed: the source relies on it.
  method InsertRecord(w: World, cleans: bool) returns (ok: bool)
    modifies w
    ensures SameBut({Journal}, old(w.files), w.files)
    ensures w.ran == old(w.ran) && w.created <= old(w.created) + {Journal} && old(w.created) <= w.created
    ensures w.files - old(w.files) <= w.created
    ensures ok && cleans ==> Journal !in w.files
  {
    var began := w.MayCreate(Journal);
    ok := *;
    if !began || !ok {
      return false;
    }
    if cleans {
      w.Unlink({Journal});
    }
  }

  // cmd_create: returns whether it came to its end, and whether the options were parsed at all
  method CmdCreate(w: World, chain: Chain, o: CreateOptions, cleans: bool) returns (ok: bool, parsed: bool)
    requires chain.Valid() && chain.fns == [] && w.created == {} && w.ran == []
    modifies w, chain
    ensures chain.Valid() && w.ran == []
    ensures chain.fns == [] || chain.fns == [RmTmpRec] || chain.fns == [RmJournal] || chain.fns == [RmJournal, RmTmpRec]
    ensures RmTmpRec in chain.fns <==> parsed && SetsUpEditor(o)
    ensures RmJournal in chain.fns ==> !ok
    ensures SameBut({TmpRec, Journal}, old(w.files), w.files)
    ensures w.created <= RemovesAll(chain.fns) || (ok && w.created <= {Journal} + RemovesAll(chain.fns))
    ensures !SetsUpEditor(o) ==> (TmpRec in w.files <==> TmpRec in old(w.files))
    ensures ok ==> Db in w.files && Db in old(w.files) && (SetsUpEditor(o) || !IsIncomplete(o))
    ensures ok && cleans ==> Journal !in w.files
    ensures Journal in w.files && RmJournal !in chain.fns && !(ok && !cleans) ==> Journal in old(w.files)
    ensures !parsed || (o.useEditor == 0 && IsIncomplete(o)) ==> !ok && w.files == old(w.files) && chain.fns == []
  {
    hide RemovesAll;
    RemovesFew();
    parsed := *;
    if !parsed {
      return false, parsed;
    }
    if !SetsUpEditor(o) && IsIncomplete(o) {
      return false, parsed;
    }
    if SetsUpEditor(o) {
      chain.Push(RmTmpRec);
      ok := EditRecord(w);
      if !ok {
        return;
      }
    }
    ok := OpenDatabase(w, o);
    if !ok {
      return;
    }
    chain.Push(RmJournal);
    assert chain.fns == if SetsUpEditor(o) then [RmJournal, RmTmpRec] else [RmJournal];
    ok := InsertRecord(w, cleans);
    if !ok {
      return;
    }
    var _ := chain.Pop();
  }

  // main around cmd_create
  method RunCreate(w: World, o: CreateOptions, cleans: bool) returns (ok: bool, parsed: bool)
    requires w.created == {} && w.ran == []
    modifies w
    // once the editor is set up, the temporary record file is gone however the run ends; otherwise nobody touches it
    ensures TmpRec in w.files <==> TmpRec in old(w.files) && !(parsed && SetsUpEditor(o))
    ensures RmTmpRec in w.ran <==>
      parsed && (o.useEditor == 1 || (o.useEditor == -1 && (R.IsBlank(o.rec[0]) || R.IsBlank(o.rec[3]))))
    // the journal is gone after every failure once the database is in use, and after success if SQLite has removed it
    ensures RmJournal in w.ran ==> !ok && w.ran[0] == RmJournal && Journal !in w.files
    ensures ok && cleans ==> Journal !in w.files
    ensures Journal in w.files && !(ok && !cleans) ==> Journal in old(w.files)
    // no file is left that this run created, but for a journal that SQLite leaves, and no other file is touched
    ensures w.created * w.files <= if ok && !cleans then {Journal} else {}
    ensures SameBut({TmpRec, Journal}, old(w.files), w.files)
    ensures ok ==> SetsUpEditor(o) || !IsIncomplete(o)
    ensures !parsed || (o.useEditor == 0 && IsIncomplete(o)) ==> !ok && w.files == old(w.files) && w.ran == []
  {
    hide RemovesAll;
    RemovesFew();
    EditorIsWanted(o);
    hide R.IsBlank, SetsUpEditor;
    var chain := new Chain();
    ok, parsed := CmdCreate(w, chain, o, cleans);
    ghost var left := chain.fns;
    chain.Apply(w);
    assert w.ran == left;
  }
}
