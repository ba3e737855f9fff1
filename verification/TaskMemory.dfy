/** task_new and task_free (src/task/task.c:27-106): a task's struct, its address space and its
    place in the queue come and go together. */
module TaskMemory {
  import opened Words
  import opened HeapTable
  import opened Heaps
  import opened KHeap
  import opened PageTables
  import opened Paging
  import opened AddressSpace
  import opened TaskList
  import opened Sequences

  const TASK_SIZE := 64 // sizeof(struct task)
  const TASK_FLAGS := 5 // PAGING_IS_PRESENT | PAGING_ACCESS_FROM_ALL

  /** m' is m together with a block for the struct and the blocks of an address space. */
  ghost predicate AddsTask(m: Chains, m': Chains, w: seq<Word>, base: nat, b: nat, c: int)
    requires IsSpace(w, base, c)
  {
    b !in m && AddsSpace(m[b := 1], m', w, base, c)
  }

  /** task_new, with memory for all of it */
  method TaskNew(heap: Heap, queue: Queue) returns (task: Task)
    requires heap.Valid() && FreeCount(heap.entries[..]) > SPACE_BLOCKS && queue.Forward()
    modifies heap.entries, heap`live, heap.pool, queue, queue.tasks
    ensures heap.Valid() && IsBlock(heap, task.address) && SpaceAt(heap, task.directory)
    ensures IsIdentity(SpaceMap(heap, task.directory), 5)
    ensures DirectoryTagged(heap.pool[..], heap.saddr, DirectoryBlock(heap, task.directory), 5)
    ensures AddsTask(old(heap.live), heap.live, heap.pool[..], heap.saddr,
                     heap.Block(task.address), heap.Block(task.directory))
    ensures LiveWordsKept(old(heap.pool[..]), heap.pool[..], old(heap.live))
    ensures fresh(task) && queue.Forward() && queue.tasks == old(queue.tasks) + [task]
    ensures queue.Backward() <==> old(queue.Backward())
    ensures queue.current == if old(queue.tasks) == [] then task else old(queue.current)
  {
    hide Represents, FreeCount, IsSpace, IsIdentity, AddsSpace, Queue.Forward, Queue.Backward, DirectoryTagged;
    ghost var m, w := heap.live, heap.pool[..];
    var address := AllocPage(heap, TASK_SIZE);
    ghost var w' := heap.pool[..];
    var directory := New4Gb(heap, TASK_FLAGS);
    WordsKeptTwice(w, w', heap.pool[..], m, heap.Block(address));
    task := new Task(address, directory);
    queue.New(task);
  }

  lemma WordsKeptTwice(w: seq<Word>, w': seq<Word>, w'': seq<Word>, live: Chains, b: nat)
    requires SameOutside(w, w', b) && !Covered(live, b) && b !in live && LiveWordsKept(w', w'', live[b := 1])
    ensures LiveWordsKept(w, w'', live)
  {
    forall x | Covered(live, x)
      ensures Covered(live[b := 1], x)
    {
      var s :| s in live && s <= x < s + live[s];
      assert s in live[b := 1] && live[b := 1][s] == live[s];
    }
  }

  /** task_free of task k of the queue */
  method TaskFree(heap: Heap, queue: Queue, task: Task, ghost k: nat, ghost m: Chains)
    requires heap.Valid() && IsBlock(heap, task.address) && SpaceAt(heap, task.directory)
    requires AddsTask(m, heap.live, heap.pool[..], heap.saddr, heap.Block(task.address), heap.Block(task.directory))
    requires queue.Forward() && queue.current in queue.tasks && k < |queue.tasks| && queue.tasks[k] == task
    modifies heap.entries, heap`live, queue, queue.tasks, task.prev
    ensures heap.Valid() && heap.live == m
    ensures queue.tasks == Without(old(queue.tasks), k)
    ensures queue.Forward() <==> PrevFits(old(queue.tasks), k, old(task.prev))
    ensures old(queue.Backward()) ==> queue.Forward() && (queue.Backward() <==> k == |old(queue.tasks)| - 1)
    ensures if queue.tasks == [] then queue.current == null else queue.current in queue.tasks
    ensures queue.current == if old(queue.current) != task then old(queue.current)
                             else if k + 1 < |old(queue.tasks)| then old(queue.tasks)[k + 1] else queue.head
    ensures queue.head == if k > 0 then old(queue.tasks)[0]
                          else if |old(queue.tasks)| > 1 then old(queue.tasks)[1] else null
  {
    hide Represents, IsSpace, AddsSpace, Queue.Forward, Queue.Backward, PrevFits;
    ghost var m', w, c := heap.live, heap.pool[..], heap.Block(task.directory);
    ghost var b := heap.Block(task.address);
    SpaceIsLive(m[b := 1], m', w, heap.saddr, c);
    Free4Gb(heap, task.directory);
    SpaceSubtracts(m[b := 1], m', heap.live, w, w, heap.saddr, c);
    queue.Remove(task, k);
    KFree(heap, task.address);
    assert m[b := 1] - {b} == m;
  }

  lemma SpaceIsLive(m: Chains, m': Chains, w: seq<Word>, base: nat, c: int)
    requires IsSpace(w, base, c) && AddsSpace(m, m', w, base, c)
    ensures SpaceLive(w, base, c, m')
  {
  }

  /** A task that is made and freed leaves every byte of the heap table and the queue as they were. */
  method NewThenFree(heap: Heap, queue: Queue)
    requires heap.Valid() && FreeCount(heap.entries[..]) > SPACE_BLOCKS && queue.Valid()
    modifies heap.entries, heap`live, heap.pool, queue, queue.tasks
    ensures heap.Valid() && heap.live == old(heap.live) && heap.entries[..] == old(heap.entries[..])
    ensures queue.Valid() && queue.tasks == old(queue.tasks)
  {
    hide Represents, FreeCount, IsSpace, AddsTask, Queue.Forward, PrevFits;
    ghost var t, m, s := heap.entries[..], heap.live, queue.tasks;
    var task := TaskNew(heap, queue);
    assert queue.tasks[|s|] == task && (|s| > 0 ==> task.prev == queue.tasks[|s| - 1] == s[|s| - 1]);
    TaskFree(heap, queue, task, |s|, m);
    TableUnique(t, heap.entries[..], m);
  }
}
