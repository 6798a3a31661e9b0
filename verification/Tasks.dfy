/** Sort and merge tasks: the values the manager queues and the objects a worker computes on. */
module Tasks {
  import opened Sorting

  const TASK_NOT_SOLVED: int := 10
  const TASK_IN_PROGRESS: int := 11
  const TASK_SOLVED: int := 12

  /** A task as the manager stores and forwards it */
  datatype Task =
    | Sort(data: seq<int>, status: int)
    | Merge(data1: seq<int>, data2: seq<int>, status: int)

  /** What computeResult leaves in the task's data */
  function Result(t: Task): seq<int> {
    match t
    case Sort(data, _) => Sorting.Sort(data)
    case Merge(data1, data2, _) => Sorting.Merge(data1, data2)
  }

  function Numbers(t: Task): multiset<int> {
    match t
    case Sort(data, _) => multiset(data)
    case Merge(data1, data2, _) => multiset(data1) + multiset(data2)
  }

  /** Both halves of a merge task are sorted. */
  ghost predicate Mergeable(t: Task) {
    t.Merge? ==> Sorted(t.data1) && Sorted(t.data2)
  }

  lemma ResultCorrect(t: Task)
    ensures multiset(Result(t)) == Numbers(t)
    ensures |Result(t)| == |Numbers(t)|
    ensures Mergeable(t) ==> Sorted(Result(t))
  {
    match t
    case Sort(data, _) =>
      SortCorrect(data);
    case Merge(data1, data2, _) =>
      MergePermutes(data1, data2);
      if Mergeable(t) { MergeSorts(data1, data2); }
  }

  class SortTask {
    var data: array<int>
    var status: int

    constructor (numbers: seq<int>)
      ensures fresh(data) && data[..] == numbers
      ensures status == TASK_NOT_SOLVED
    {
      data := new int[|numbers|](i requires 0 <= i < |numbers| => numbers[i]);
      status := TASK_NOT_SOLVED;
    }

    method ComputeResult()
      modifies this`status, data
      ensures data[..] == Sorting.Sort(old(data[..]))
      ensures status == TASK_SOLVED
    {
      InsertionSort(data);
      status := TASK_SOLVED;
    }
  }

  class MergeTask {
    var data1: array<int>
    var data2: array<int>
    var data: array<int>
    var status: int

    constructor (numbers1: seq<int>, numbers2: seq<int>)
      ensures fresh(data1) && fresh(data2) && fresh(data)
      ensures data1[..] == numbers1 && data2[..] == numbers2 && data.Length == 0
      ensures status == TASK_NOT_SOLVED
    {
      data1 := new int[|numbers1|](i requires 0 <= i < |numbers1| => numbers1[i]);
      data2 := new int[|numbers2|](i requires 0 <= i < |numbers2| => numbers2[i]);
      data := new int[0];
      status := TASK_NOT_SOLVED;
    }

    /** Merging two empty halves returns before the status is set. */
    method ComputeResult()
      requires data.Length == 0
      modifies this`status, this`data
      ensures fresh(data) || data == old(data)
      ensures data[..] == Sorting.Merge(data1[..], data2[..])
      ensures status == if data1.Length + data2.Length == 0 then old(status) else TASK_SOLVED
    {
      if data1.Length + data2.Length == 0 {
        return;
      }
      data := MergeArrays(data1, data2);
      status := TASK_SOLVED;
    }
  }
}
