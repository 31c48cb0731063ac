/** RegistryServer's request handling, with its maps and handles updated in place, proved against Registry. */
module RegistryServer {
  import opened Util
  import opened RdmaMemory
  import opened RingLayout
  import opened Registry

  class Server {
    var nodes: seq<Heap>                            // the allocators of the nodes, behind their ring requests
    var bufferHandles: map<string, BufferHandle>    // m_bufferHandles
    var appendersJoinedBuffer: map<string, nat>     // m_appendersJoinedBuffer

    ghost function Abs(): (s: Registry)
      reads this
    {
      Registry(nodes, bufferHandles, appendersJoinedBuffer)
    }

    constructor (sizes: seq<nat>)
      ensures Abs() == Start(sizes)
    {
      nodes := Start(sizes).heaps;
      bufferHandles, appendersJoinedBuffer := map[], map[];
    }

    method CreateRingOnBuffer(bufferHandle: BufferHandle) returns (segment: Option<BufferSegment>)
      requires bufferHandle.nodeId > 0
      modifies this`nodes
      ensures (nodes, segment) == CreateRing(old(nodes), bufferHandle)
    {
      if bufferHandle.nodeId > |nodes| {
        return None;
      }
      var (heap, b) := Alloc(nodes[bufferHandle.nodeId - 1], RingSize(bufferHandle));
      nodes := nodes[bufferHandle.nodeId - 1 := heap];
      if b.None? {
        return None;
      }
      segment := Some(BufferSegment(b.value.offset + CounterSize(bufferHandle.bufferType), bufferHandle.segmentSizes));
    }

    /** DPIAppendBufferRequest with the register flag. */
    method HandleRegister(name: string, handle: BufferHandle, numberAppenders: nat) returns (resp: Response)
      requires WellFormed(Register(name, handle, numberAppenders))
      modifies this
      ensures (Abs(), resp) == Handle(old(Abs()), Register(name, handle, numberAppenders))
    {
      var registerSuccess := name !in bufferHandles;
      if registerSuccess {
        bufferHandles := bufferHandles[name := handle];
        ghost var whole := CreateRings(nodes, handle, numberAppenders);
        var i := 0;
        while registerSuccess && i < numberAppenders
          invariant i <= numberAppenders
          invariant name in bufferHandles && bufferHandles == old(bufferHandles)[name := bufferHandles[name]]
          invariant bufferHandles[name].nodeId > 0
          invariant appendersJoinedBuffer == old(appendersJoinedBuffer)
          invariant if registerSuccess then CreateRings(nodes, bufferHandles[name], numberAppenders - i) == whole
                    else (nodes, bufferHandles[name], false) == whole
        {
          var segment := CreateRingOnBuffer(bufferHandles[name]);
          if segment.None? {
            registerSuccess := false;
          } else {
            var h := bufferHandles[name];
            bufferHandles := bufferHandles[name := h.(entrySegments := h.entrySegments + [segment.value])];
            i := i + 1;
          }
        }
      }
      appendersJoinedBuffer := appendersJoinedBuffer[name := 0];
      resp := Registered(registerSuccess);
    }

    /** DPIRetrieveBufferRequest from anybody else: all rings of the buffer. */
    method HandleRetrieve(name: string) returns (resp: Response)
      ensures (Abs(), resp) == Handle(Abs(), Retrieve(name))
    {
      if name !in bufferHandles {
        return NotFound;
      }
      var buffHandle := bufferHandles[name];
      var segments: seq<BufferSegment> := [];
      for i := 0 to |buffHandle.entrySegments|
        invariant segments == buffHandle.entrySegments[..i]
      {
        segments := segments + [buffHandle.entrySegments[i]];
      }
      assert segments == buffHandle.entrySegments;
      resp := Segments(BufferHandle(buffHandle.nodeId, segments, buffHandle.segmentsPerWriter, buffHandle.segmentSizes, buffHandle.bufferType));
    }

    /** DPIRetrieveBufferRequest from an appender. A ring is handed out only if one is left. */
    method HandleJoin(name: string) returns (resp: Response)
      modifies this`appendersJoinedBuffer
      ensures (Abs(), resp) == Handle(old(Abs()), Join(name))
    {
      if name !in bufferHandles {
        return NotFound;
      }
      var buffHandle := bufferHandles[name];
      if name !in appendersJoinedBuffer {
        appendersJoinedBuffer := appendersJoinedBuffer[name := 0];
      }
      var numberAppenders := appendersJoinedBuffer[name];
      if numberAppenders >= |buffHandle.entrySegments| {
        resp := JoinFailed;
      } else {
        var segment := buffHandle.entrySegments[numberAppenders];
        resp := Segments(BufferHandle(buffHandle.nodeId, [segment], buffHandle.segmentsPerWriter, buffHandle.segmentSizes, buffHandle.bufferType));
        appendersJoinedBuffer := appendersJoinedBuffer[name := numberAppenders + 1];
      }
      assert appendersJoinedBuffer == old(appendersJoinedBuffer)[name := appendersJoinedBuffer[name]];
    }
  }
}
