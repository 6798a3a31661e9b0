/** The integer packets in which tasks travel between the master and its workers. */
module TaskPackets {
  import opened Options
  import opened Tasks

  const SORT_TASK: int := 111
  const MERGE_TASK: int := 112
  const MAX_PACKET_SIZE: nat := 16 * 1024

  /** The words write_task produces */
  function Packet(t: Task): seq<int> {
    match t
    case Sort(data, _) => [SORT_TASK, |data|] + data
    case Merge(data1, data2, _) => [MERGE_TASK, |data1|] + data1 + [|data2|] + data2
  }

  /** The task read_task builds; None where the program aborts or would read outside the buffer */
  function Parse(buffer: seq<int>): Option<Task> {
    if |buffer| < 2 || buffer[1] < 0 then None
    else if buffer[0] == SORT_TASK then
      var end := 2 + buffer[1];
      if end <= |buffer| then Some(Sort(buffer[2..end], TASK_NOT_SOLVED)) else None
    else if buffer[0] == MERGE_TASK then
      var mid := 2 + buffer[1];
      if mid >= |buffer| || buffer[mid] < 0 then None
      else
        var end := mid + 1 + buffer[mid];
        if end <= |buffer| then Some(Merge(buffer[2..mid], buffer[mid + 1..end], TASK_NOT_SOLVED)) else None
    else None
  }

  /** read_task undoes write_task whatever an earlier packet left behind it in the buffer. */
  lemma ParsePacket(t: Task, rest: seq<int>)
    ensures Parse(Packet(t) + rest) == Some(t.(status := TASK_NOT_SOLVED))
  {
    var b := Packet(t) + rest;
    match t
    case Sort(data, _) =>
      assert b[2..2 + |data|] == data;
    case Merge(data1, data2, _) =>
      var mid := 2 + |data1|;
      assert b == ([MERGE_TASK, |data1|] + data1) + ([|data2|] + data2 + rest);
      assert b[2..mid] == data1;
      assert b[mid] == |data2|;
      assert b[mid + 1..mid + 1 + |data2|] == data2;
  }

  /** The buffer starts with the packet of the task. */
  predicate StartsWith(buffer: seq<int>, t: Task) {
    |Packet(t)| <= |buffer| && buffer[..|Packet(t)|] == Packet(t)
  }

  lemma ParsedSort(buffer: seq<int>, t: Task)
    requires t.Sort? && Parse(buffer) == Some(t)
    ensures t.status == TASK_NOT_SOLVED && StartsWith(buffer, t)
  {
    assert buffer[..|Packet(t)|] == [buffer[0], buffer[1]] + buffer[2..|Packet(t)|];
  }

  lemma ParsedMerge(buffer: seq<int>, t: Task)
    requires t.Merge? && Parse(buffer) == Some(t)
    ensures t.status == TASK_NOT_SOLVED && StartsWith(buffer, t)
  {
    var mid, end := 2 + |t.data1|, |Packet(t)|;
    assert buffer[..end] == [buffer[0], buffer[1]] + buffer[2..mid] + [buffer[mid]] + buffer[mid + 1..end];
  }

  lemma ParsedPrefix(buffer: seq<int>, t: Task)
    requires StartsWith(buffer, t)
    ensures Parse(buffer) == Some(t.(status := TASK_NOT_SOLVED))
  {
    ParsePacket(t, buffer[|Packet(t)|..]);
    assert buffer == Packet(t) + buffer[|Packet(t)|..];
  }

  /** read_task builds a task exactly from the buffers that start with the task's packet. */
  lemma ParseExactly(buffer: seq<int>, t: Task)
    ensures Parse(buffer) == Some(t) <==> t.status == TASK_NOT_SOLVED && StartsWith(buffer, t)
  {
    if Parse(buffer) == Some(t) {
      if t.Sort? { ParsedSort(buffer, t); } else { ParsedMerge(buffer, t); }
    }
    if StartsWith(buffer, t) {
      ParsedPrefix(buffer, t);
    }
  }

  /** Where the words of a packet stand: kind, first size, first numbers, second size, second numbers */
  lemma PacketLayout(t: Task)
    ensures t.Sort? ==>
              && Packet(t)[0] == SORT_TASK && Packet(t)[1] == |t.data|
              && forall i :: 0 <= i < |t.data| ==> Packet(t)[2 + i] == t.data[i]
    ensures t.Merge? ==>
              var mid := 2 + |t.data1|;
              && Packet(t)[0] == MERGE_TASK && Packet(t)[1] == |t.data1| && Packet(t)[mid] == |t.data2|
              && (forall i :: 0 <= i < |t.data1| ==> Packet(t)[2 + i] == t.data1[i])
              && forall i :: 0 <= i < |t.data2| ==> Packet(t)[mid + 1 + i] == t.data2[i]
  {}

  /** A packet carries its task's numbers and at most three words more. */
  lemma PacketSize(t: Task)
    ensures |Packet(t)| == |Numbers(t)| + if t.Sort? then 2 else 3
  {
  }

  method WriteTask(t: Task, buffer: array<int>) returns (size: nat)
    requires |Packet(t)| <= buffer.Length
    modifies buffer
    ensures size == |Packet(t)|
    ensures forall i :: 0 <= i < buffer.Length ==>
              buffer[i] == (if i < size then Packet(t)[i] else old(buffer[i]))
  {
    match t
    case Sort(data, _) =>
      buffer[0], buffer[1] := SORT_TASK, |data|;
      Copy(data, buffer, 2);
      size := |data| + 2;
    case Merge(data1, data2, _) =>
      size := WriteMerge(data1, data2, t.status, buffer);
  }

  method WriteMerge(data1: seq<int>, data2: seq<int>, ghost status: int, buffer: array<int>) returns (size: nat)
    requires |data1| + |data2| + 3 <= buffer.Length
    modifies buffer
    ensures size == |data1| + |data2| + 3
    ensures forall i :: 0 <= i < buffer.Length ==>
              buffer[i] == (if i < size then Packet(Merge(data1, data2, status))[i] else old(buffer[i]))
  {
    buffer[0], buffer[1] := MERGE_TASK, |data1|;
    var offset := 2;
    Copy(data1, buffer, offset);
    offset := offset + |data1|;
    buffer[offset] := |data2|;
    offset := offset + 1;
    Copy(data2, buffer, offset);
    size := offset + |data2|;
  }

  method Copy(data: seq<int>, buffer: array<int>, offset: nat)
    requires offset + |data| <= buffer.Length
    modifies buffer
    ensures forall i :: 0 <= i < buffer.Length ==>
              buffer[i] == (if offset <= i < offset + |data| then data[i - offset] else old(buffer[i]))
  {
    forall i | 0 <= i < |data| {
      buffer[offset + i] := data[i];
    }
  }

  method ReadTask(buffer: array<int>) returns (t: Option<Task>)
    ensures t == Parse(buffer[..])
  {
    if buffer.Length < 2 || buffer[1] < 0 {
      return None;
    }
    var size1 := buffer[1];
    if buffer[0] == SORT_TASK && 2 + size1 <= buffer.Length {
      return Some(Sort(buffer[2..2 + size1], TASK_NOT_SOLVED));
    }
    if buffer[0] == MERGE_TASK && 2 + size1 < buffer.Length {
      var size2 := buffer[size1 + 2];
      if 0 <= size2 && size1 + 3 + size2 <= buffer.Length {
        return Some(Merge(buffer[2..2 + size1], buffer[size1 + 3..size1 + 3 + size2], TASK_NOT_SOLVED));
      }
    }
    return None;
  }
}
