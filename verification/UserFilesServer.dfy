/** Saving and deleting files as the server does it: two queries on the pipeline, and callbacks on the disk. */
module UserFilesServer {
  import opened Sequences
  import opened PipelineRing
  import opened UserFiles
  import PM = PipelineMachine
  import PW = PipelineWorker

  /** The reference count that a context holds, if it could be read. */
  function CountIn(c: Ctx<Query>): Option<int> {
    if c.answer.Some? && c.answer.value.status == TuplesOk && c.answer.value.rows != []
    then Some(c.answer.value.rows[0])
    else None
  }

  class FileServer {
    const pipe: PW.Worker<Query>
    var imgDir: set<Hash>

    ghost function State(): World
      reads this, pipe, pipe.queue, pipe.queue.slots
    {
      World(pipe.State(), imgDir)
    }

    constructor (size: nat, files: set<Hash>)
      requires size > 0
      ensures State() == World(PM.Init(size), files) && fresh(pipe) && fresh(pipe.queue) && fresh(pipe.queue.slots)
    {
      pipe := new PW.Worker<Query>(size);
      imgDir := files;
    }

    /** Sends the insert and, in the same context, the reference count. The flags tell whether the data is an
        image, what the database will make of the statements, and whether the connection takes them. */
    method SaveFileImg(hash: Hash, isImage: bool, insertOk: bool, selectOk: bool, takesFirst: bool, takesSecond: bool)
      returns (ret: bool)
      requires Shape(State().pipe.ring)
      modifies pipe
      ensures ret <==> isImage && takesFirst && takesSecond
      ensures imgDir == old(imgDir)
      ensures isImage && takesFirst ==> State() == Apply(old(State()), Save(hash, insertOk, selectOk, takesSecond))
      ensures !isImage || !takesFirst ==> State() == old(State())
    {
      if !isImage {
        return false;
      }
      var ctx := Request(InsertFile(hash, insertOk), CommandResult, 0, Some([]));
      var sent := pipe.AsyncParams(ctx, takesFirst);
      ret := sent == 1;
      if ret {
        ctx := Request(RefCount(hash, selectOk), TuplesResult, 0, None);
        sent := pipe.AsyncParams(ctx, takesSecond);
        ret := sent == 1;
      }
    }

    /** The same for a release. */
    method DeleteFile(hash: Hash, image: bool, ok: bool, selectOk: bool, takesFirst: bool, takesSecond: bool)
      returns (ret: bool)
      requires Shape(State().pipe.ring)
      modifies pipe
      ensures ret <==> takesFirst && takesSecond
      ensures imgDir == old(imgDir)
      ensures takesFirst ==> State() == Apply(old(State()), Release(hash, ok, image, selectOk, takesSecond))
      ensures !takesFirst ==> State() == old(State())
    {
      var ctx := Request(DecrementFile(hash, ok, image), CommandResult, 0, Some([]));
      var sent := pipe.AsyncParams(ctx, takesFirst);
      ret := sent == 1;
      if ret {
        ctx := Request(RefCount(hash, selectOk), TuplesResult, 0, None);
        sent := pipe.AsyncParams(ctx, takesSecond);
        ret := sent == 1;
      }
    }

    /** The callback of an insert: writes the file if its row is new. */
    method DoSaveFileImg(ctx: Ctx<Query>, next: Option<Ctx<Query>>) returns (errmsg: Option<string>)
      requires ctx.req.query.InsertFile? && ctx.req.exec.Some?
      modifies this
      ensures imgDir == Effect(old(imgDir), ctx, next)
      ensures forall h :: h in imgDir <==>
        h in old(imgDir)
        || (h == ctx.req.query.hash && ctx.ret != Error && next.Some? && CountIn(next.value) == Some(1))
      ensures errmsg == None <==> next.Some? && ctx.ret != Error
    {
      if next == None {
        return Some("Internal error");
      }
      if ctx.ret == Error {
        return Some("Failed to save image");
      }
      var refCount := DataSize(next.value);
      if refCount == 1 {
        imgDir := imgDir + {ctx.req.query.hash};
      }
      errmsg := None;
    }

    /** The callback of a decrement: unlinks the file if its row is gone. */
    method DoDeleteFile(ctx: Ctx<Query>, next: Option<Ctx<Query>>)
      requires ctx.req.query.DecrementFile? && ctx.req.exec.Some?
      modifies this
      ensures imgDir == Effect(old(imgDir), ctx, next)
      ensures forall h :: h in imgDir <==>
        h in old(imgDir) && !(h == ctx.req.query.hash && ctx.req.query.image && ctx.ret != Error && next.Some?
                              && !(CountIn(next.value).Some? && CountIn(next.value).value > 0))
    {
      if next == None {
        return;
      }
      if ctx.ret == Error {
        return;
      }
      var refCount := DataSize(next.value);
      if refCount <= 0 {
        if ctx.req.query.image {
          imgDir := imgDir - {ctx.req.query.hash};
        }
      }
    }
  }
}
