/** Files by path, with every step that changes them recorded: a process that dies leaves one of the
    recorded states behind. Each operation is told how the operating system answers it. */
module FileStore {
  import opened Wrappers

  type Bytes = string
  type Files = map<string, Bytes>

  /** An operating-system error, with its raw code when there is one. */
  datatype IoError = IoError(code: Option<int>)

  const NOT_FOUND: IoError := IoError(Some(2))

  /** A copy completes, or cannot open its destination, or stops after some bytes. */
  datatype CopyAnswer = Completes | CannotOpen(error: IoError) | StopsAfter(bytes: nat, error: IoError)

  /** An atomic operation is carried out or refused. */
  datatype Answer = Done | Refused(error: IoError)

  function Lookup(fs: Files, path: string): Option<Bytes> {
    if path in fs then Some(fs[path]) else None
  }

  ghost predicate SameExcept(a: Files, b: Files, touched: set<string>) {
    forall p :: p !in touched ==> Lookup(a, p) == Lookup(b, p)
  }

  function Prefix(b: Bytes, n: nat): Bytes {
    if n <= |b| then b[..n] else b
  }

  class FileSystem {
    var files: Files
    ghost var history: seq<Files>

    /** `history` ends in the present state. */
    ghost predicate Valid()
      reads this
    {
      |history| > 0 && history[|history| - 1] == files
    }

    constructor (files: Files)
      ensures Valid() && this.files == files && history == [files]
    {
      this.files := files;
      this.history := [files];
    }

    method Put(path: string, b: Bytes)
      requires Valid()
      modifies this
      ensures Valid() && files == old(files)[path := b] && history == old(history) + [files]
    {
      files := files[path := b];
      history := history + [files];
    }

    method Rename(from: string, to: string, answer: Answer) returns (r: Result<(), IoError>)
      requires Valid()
      modifies this
      ensures Valid()
      ensures r.Ok? <==> answer.Done? && from in old(files)
      ensures r.Ok? ==> files == (old(files) - {from})[to := old(files)[from]] && history == old(history) + [files]
      ensures r.Err? ==> files == old(files) && history == old(history)
      ensures r.Err? ==> r.error == if answer.Refused? then answer.error else NOT_FOUND
    {
      if answer.Refused? {
        return Err(answer.error);
      }
      if from !in files {
        return Err(NOT_FOUND);
      }
      files := (files - {from})[to := files[from]];
      history := history + [files];
      return Ok(());
    }

    method Remove(path: string, answer: Answer) returns (r: Result<(), IoError>)
      requires Valid()
      modifies this
      ensures Valid()
      ensures r.Ok? <==> answer.Done? && path in old(files)
      ensures r.Ok? ==> files == old(files) - {path} && history == old(history) + [files]
      ensures r.Err? ==> files == old(files) && history == old(history)
      ensures r.Err? ==> r.error == if answer.Refused? then answer.error else NOT_FOUND
    {
      if answer.Refused? {
        return Err(answer.error);
      }
      if path !in files {
        return Err(NOT_FOUND);
      }
      files := files - {path};
      history := history + [files];
      return Ok(());
    }

    /** Copies byte by byte; on the way `to` holds ever longer beginnings of `from`, and no other path changes. */
    method Copy(from: string, to: string, answer: CopyAnswer) returns (r: Result<(), IoError>)
      requires Valid() && from != to
      modifies this
      ensures Valid()
      ensures r.Ok? <==> answer.Completes? && from in old(files)
      ensures r.Err? ==> r.error == if from in old(files) then answer.error else NOT_FOUND
      ensures r.Ok? ==> files == old(files)[to := old(files)[from]]
      ensures answer.CannotOpen? || from !in old(files) ==> files == old(files)
      ensures answer.StopsAfter? && from in old(files) ==>
              files == old(files)[to := Prefix(old(files)[from], answer.bytes)]
      ensures old(history) <= history
      ensures forall i :: |old(history)| <= i < |history| ==> SameExcept(history[i], old(files), {to})
    {
      if from !in files {
        return Err(NOT_FOUND);
      }
      if answer.CannotOpen? {
        return Err(answer.error);
      }
      var data := files[from];
      var end := if answer.StopsAfter? && answer.bytes < |data| then answer.bytes else |data|;
      Put(to, "");
      assert data[..0] == "";
      for n := 0 to end
        invariant Valid() && files == old(files)[to := data[..n]]
        invariant old(history) <= history
        invariant forall i :: |old(history)| <= i < |history| ==> SameExcept(history[i], old(files), {to})
      {
        Put(to, data[..n + 1]);
      }
      assert data[..|data|] == data;
      if answer.StopsAfter? {
        return Err(answer.error);
      }
      return Ok(());
    }
  }
}
