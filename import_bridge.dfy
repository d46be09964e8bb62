/** The decoding part of the host's `env.abort` import in go/main.go: from the
    guest's message and file-name pointers it reads two strings out of linear
    memory and builds the diagnostic that the host prints, with line and column
    passed through. */
module ImportBridge {
  import opened Wire
  import MemoryCodec

  /** What the host reports when the guest aborts. */
  datatype Diagnostic = Diagnostic(message: string, fileName: string, line: Int32, column: Int32)

  /** The handler's outcome. `memory` is the instance's `memory` export, None when
      it is missing. The message is read before the file name, so a panic while
      reading the message means the file name is never read. On success the
      handler returns no values and no error to the guest. */
  function Abort(memory: Option<seq<uint8>>, messagePtr: Int32, fileNamePtr: Int32, line: Int32, column: Int32): (r: Result<Diagnostic>)
    ensures r.Fail? <==> memory.None?
    ensures r.Fail? ==> r.error == MemoryNotExported
    ensures r.Ok? <==> && memory.Some?
                       && MemoryCodec.ReadString(memory.value, messagePtr).Ok?
                       && MemoryCodec.ReadString(memory.value, fileNamePtr).Ok?
    ensures r.Ok? ==> && r.value.message == MemoryCodec.ReadString(memory.value, messagePtr).value
                      && r.value.fileName == MemoryCodec.ReadString(memory.value, fileNamePtr).value
                      && r.value.line == line && r.value.column == column
  {
    match memory
    case None => Fail(MemoryNotExported)
    case Some(data) =>
      var message := MemoryCodec.ReadString(data, messagePtr);
      if !message.Ok? then Panic
      else
        var fileName := MemoryCodec.ReadString(data, fileNamePtr);
        if !fileName.Ok? then Panic
        else Ok(Diagnostic(message.value, fileName.value, line, column))
  }
}
