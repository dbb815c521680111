/** The exit chain of src/atexit-chain.c, and the files that its handlers remove. */
module AtexitChain {
  import opened Wrappers

  // The database, the cipher config, the temporary record file, the journal of SQLite
  datatype File = Db | Cc | TmpRec | Journal

  // destroy_key, rm_cred_db, rm_cred_cc, rm_tmp_rec, rm_journal_file
  datatype Handler = DestroyKey | RmDb | RmCc | RmTmpRec | RmJournal

  function Removes(h: Handler): set<File> {
    match h
    case DestroyKey => {}
    case RmDb => {Db}
    case RmCc => {Cc}
    case RmTmpRec => {TmpRec}
    case RmJournal => {Journal}
  }

  function RemovesAll(hs: seq<Handler>): set<File> {
    if hs == [] then {} else Removes(hs[0]) + RemovesAll(hs[1..])
  }

  lemma RemovesFew()
    ensures RemovesAll([]) == {} && RemovesAll([DestroyKey]) == {}
    ensures RemovesAll([RmCc]) == {Cc} && RemovesAll([RmDb]) == {Db} && RemovesAll([RmDb, RmCc]) == {Db, Cc}
    ensures RemovesAll([RmTmpRec]) == {TmpRec} && RemovesAll([RmJournal]) == {Journal}
    ensures RemovesAll([RmJournal, RmTmpRec]) == {Journal, TmpRec}
  {
  }

  lemma RemovesNext(h: Handler, hs: seq<Handler>)
    ensures RemovesAll([h] + hs) == Removes(h) + RemovesAll(hs)
  {
    assert ([h] + hs)[1..] == hs;
  }

  // What a run can see of the file system, and what it has done to it
  class World {
    var files: set<File>
    // the handlers that have run, in their order
    var ran: seq<Handler>
    ghost var created: set<File>
    ghost var unlinked: set<File>

    constructor (files: set<File>)
      ensures this.files == files && ran == [] && created == {} && unlinked == {}
    {
      this.files := files;
      ran := [];
      created, unlinked := {}, {};
    }

    method Unlink(fs: set<File>)
      modifies this
      ensures files == old(files) - fs && unlinked == old(unlinked) + (fs * old(files))
      ensures ran == old(ran) && created == old(created)
    {
      unlinked := unlinked + (fs * files);
      files := files - fs;
    }

    // Foreign code that may create f, and may fail before or after it has done so
    method MayCreate(f: File) returns (ok: bool)
      modifies this
      ensures ok ==> f in files
      ensures files == old(files) || files == old(files) + {f}
      ensures created == old(created) + (files - old(files))
      ensures ran == old(ran) && unlinked == old(unlinked)
    {
      ok := *;
      var creates: bool := *;
      if ok || creates {
        created := created + ({f} - files);
        files := files + {f};
      }
    }

    // The handler h itself
    method Handle(h: Handler)
      modifies this
      ensures files == old(files) - Removes(h) && ran == old(ran) + [h] && created == old(created)
    {
      Unlink(Removes(h));
      ran := ran + [h];
    }
  }

  // struct atexit_node; a node never changes once it is linked
  class Node {
    const fn: Handler
    const next: Node?

    constructor (fn: Handler, next: Node?)
      ensures this.fn == fn && this.next == next
    {
      this.fn, this.next := fn, next;
    }
  }

  ghost predicate Links(n: Node?, fns: seq<Handler>) {
    if n == null then fns == []
    else fns != [] && n.fn == fns[0] && Links(n.next, fns[1..])
  }

  class Chain {
    var atexitFunc: Node?
    // the handlers from the head of the list on
    ghost var fns: seq<Handler>

    ghost predicate Valid()
      reads this
    {
      Links(atexitFunc, fns)
    }

    constructor ()
      ensures Valid() && fns == []
    {
      atexitFunc, fns := null, [];
    }

    method Push(fn: Handler)
      requires Valid()
      modifies this
      ensures Valid() && fns == [fn] + old(fns)
    {
      var head := new Node(fn, atexitFunc);
      atexitFunc := head;
      fns := [fn] + fns;
    }

    method Pop() returns (fn: Option<Handler>)
      requires Valid()
      modifies this
      ensures Valid()
      ensures old(fns) == [] ==> fn == None && fns == []
      ensures old(fns) != [] ==> fn == Some(old(fns)[0]) && fns == old(fns)[1..]
    {
      if atexitFunc == null {
        return None;
      }
      fn := Some(atexitFunc.fn);
      atexitFunc := atexitFunc.next;
      fns := fns[1..];
    }

    // Every handler runs once, the last pushed first, and the chain is empty afterwards
    method Apply(w: World)
      requires Valid()
      modifies this, w
      ensures Valid() && fns == []
      ensures w.ran == old(w.ran) + old(fns)
      ensures w.files == old(w.files) - RemovesAll(old(fns)) && w.created == old(w.created)
    {
      hide RemovesAll, Removes;
      RemovesFew();
      ghost var done: seq<Handler> := [];
      while true
        invariant Valid() && old(fns) == done + fns
        invariant w.ran == old(w.ran) + done && w.created == old(w.created)
        invariant w.files - RemovesAll(fns) == old(w.files) - RemovesAll(old(fns))
        decreases |fns|
      {
        ghost var rest := fns;
        var fn := Pop();
        if fn.None? {
          break;
        }
        assert rest == [fn.value] + fns;
        RemovesNext(fn.value, fns);
        w.Handle(fn.value);
        done := done + [fn.value];
      }
    }
  }
}
