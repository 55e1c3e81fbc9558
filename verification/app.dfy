/**
 The task-list state of the App screen: the in-memory `tasks` array, the
 device's key-value store holding the persisted copy under "TASKS", and the
 four operations that load, add, remove and re-status tasks, together with
 the two actions of the bottom sheet that call them.
 */
module App {
  import opened TaskList

  /** The one storage key the screen reads and writes. */
  const Key: string := "TASKS"

  class TaskStore {
    /** Backing store of the JavaScript `tasks` array; its first `len` slots are
        the list, newest first. */
    var data: array<Task>
    var len: nat
    /** The device's key-value store. The value under Key is the task list it
        holds once serialised (serialisation is taken to round-trip). */
    var storage: map<string, seq<Task>>

    ghost predicate Valid()
      reads this
    {
      len <= data.Length
    }

    /** The list as the screen sees it. */
    function Contents(): (s: seq<Task>)
      reads this, data
      requires Valid()
      ensures |s| == len
    {
      data[..len]
    }

    /** The slot under Key holds exactly the in-memory list, in the same order. */
    ghost predicate Persisted()
      reads this, data
      requires Valid()
    {
      Key in storage && storage[Key] == Contents()
    }

    /** Mounting the screen: the list starts empty; `storage` is what the device
        already holds. */
    constructor (deviceStorage: map<string, seq<Task>>)
      ensures Valid() && fresh(data)
      ensures Contents() == []
      ensures storage == deviceStorage
    {
      data := new Task[0];
      len := 0;
      storage := deviceStorage;
    }

    /** `getTasks`: replaces the list by the stored one when the read succeeds and
        the slot is not empty; otherwise the list is left as it was. */
    method GetTasks(readOk: bool)
      requires Valid()
      modifies this
      ensures Valid()
      ensures data == old(data) || fresh(data)
      ensures storage == old(storage)
      ensures readOk && Key in storage ==> Contents() == storage[Key]
      ensures !(readOk && Key in storage) ==> Contents() == old(Contents())
    {
      if readOk && Key in storage {
        var stored := storage[Key];
        data := new Task[|stored|](i requires 0 <= i < |stored| => stored[i]);
        len := |stored|;
        assert Contents() == stored;
      }
    }

    /** `AsyncStorage.setItem('TASKS', JSON.stringify(tasks))`: when the write
        succeeds the slot under Key becomes the current list and no other key
        changes; a failed write changes nothing. */
    method Store(writeOk: bool)
      requires Valid()
      modifies this`storage
      ensures Valid()
      ensures storage == if writeOk then old(storage)[Key := Contents()] else old(storage)
    {
      if writeOk {
        storage := storage[Key := Contents()];
      }
    }

    /** `tasks.reverse()`: reverses the list in place. */
    method ReverseInPlace()
      requires Valid()
      modifies data
      ensures Valid()
      ensures Contents() == Reverse(old(Contents()))
    {
      ghost var before := Contents();
      var lo, hi := 0, len;
      while lo + 1 < hi
        invariant 0 <= lo <= hi <= len
        invariant lo + hi == len
        invariant forall k :: 0 <= k < lo ==>
          data[k] == before[len - 1 - k] && data[len - 1 - k] == before[k]
        invariant forall k :: lo <= k < hi ==> data[k] == before[k]
      {
        hi := hi - 1;
        data[lo], data[hi] := data[hi], data[lo];
        lo := lo + 1;
      }
      forall k | 0 <= k < len
        ensures Contents()[k] == Reverse(before)[k]
      {
        ReverseAt(before, k);
      }
    }

    /** `tasks.push(t)`: appends at the end, growing the backing store when it
        is full. */
    method Push(t: Task)
      requires Valid()
      modifies this, data
      ensures Valid()
      ensures data == old(data) || fresh(data)
      ensures storage == old(storage)
      ensures Contents() == old(Contents()) + [t]
    {
      if len == data.Length {
        var grown := new Task[2 * len + 1];
        var i := 0;
        while i < len
          modifies grown
          invariant 0 <= i <= len
          invariant forall k :: 0 <= k < i ==> grown[k] == data[k]
        {
          grown[i] := data[i];
          i := i + 1;
        }
        data := grown;
      }
      data[len] := t;
      len := len + 1;
    }

    /** `addTask`: reverse, push the new pending task, reverse back, then store.
        The new task ends up first and the earlier ones follow in order. */
    method AddTask(title: string, timestamp: string, writeOk: bool)
      requires Valid()
      modifies this, data
      ensures Valid()
      ensures data == old(data) || fresh(data)
      ensures Contents() == [Task(title, false, timestamp)] + old(Contents())
      ensures |Contents()| == |old(Contents())| + 1
      ensures storage == if writeOk then old(storage)[Key := Contents()] else old(storage)
    {
      ghost var before := Contents();
      var newTask := Task(title, false, timestamp);
      ReverseInPlace();
      Push(newTask);
      ReverseInPlace();
      ReversePushReverse(before, newTask);
      Store(writeOk);
    }

    /** `removeTask`: `splice(idx, 1)` shifts every later entry down one place
        and shortens the list, then the list is stored. */
    method RemoveTask(idx: nat, writeOk: bool)
      requires Valid()
      requires idx < len
      modifies this, data
      ensures Valid() && data == old(data)
      ensures Contents() == Removed(old(Contents()), idx)
      ensures storage == if writeOk then old(storage)[Key := Contents()] else old(storage)
    {
      ghost var before := Contents();
      var i := idx;
      while i + 1 < len
        modifies data
        invariant idx <= i < len
        invariant forall k :: 0 <= k < idx ==> data[k] == before[k]
        invariant forall k :: idx <= k < i ==> data[k] == before[k + 1]
        invariant forall k :: i < k < len ==> data[k] == before[k]
      {
        data[i] := data[i + 1];
        i := i + 1;
      }
      len := len - 1;
      assert Contents() == Removed(before, idx);
      Store(writeOk);
    }

    /** `setStatusTask`: overwrites the status of entry idx, then stores. */
    method SetStatusTask(idx: nat, status: bool, writeOk: bool)
      requires Valid()
      requires idx < len
      modifies this, data
      ensures Valid() && data == old(data)
      ensures Contents() == WithStatus(old(Contents()), idx, status)
      ensures storage == if writeOk then old(storage)[Key := Contents()] else old(storage)
    {
      data[idx] := data[idx].(status := status);
      assert Contents() == WithStatus(old(Contents()), idx, status);
      Store(writeOk);
    }

    /** Label of the bottom sheet's first action: 'Todo' when the selected task
        is done, 'Done' when it is pending or when no task is selected (the
        lookup then yields `undefined`). */
    function ToggleLabel(selected: Option<nat>): (text: string)
      reads this, data
      requires Valid()
      ensures text == "Todo" || text == "Done"
      ensures text == "Todo" <==>
        (selected.Some? && selected.value < |Contents()| && Contents()[selected.value].status)
    {
      match selected
      case Some(i) => if i < len && data[i].status then "Todo" else "Done"
      case None => "Done"
    }

    /** The first action: writes the negated status of the selected task. The
        label shown beforehand names the status it produces. */
    method ToggleAction(selected: Option<nat>, writeOk: bool)
      requires Valid()
      requires selected.Some? && selected.value < len
      modifies this, data
      ensures Valid() && data == old(data)
      ensures Contents() == WithStatus(old(Contents()), selected.value, !old(Contents())[selected.value].status)
      ensures Contents()[selected.value].status <==> old(ToggleLabel(selected)) == "Done"
      ensures storage == if writeOk then old(storage)[Key := Contents()] else old(storage)
    {
      var idx := selected.value;
      SetStatusTask(idx, !data[idx].status, writeOk);
    }

    /** The 'Delete' action: removes the selected task. */
    method DeleteAction(selected: Option<nat>, writeOk: bool)
      requires Valid()
      requires selected.Some? && selected.value < len
      modifies this, data
      ensures Valid() && data == old(data)
      ensures Contents() == Removed(old(Contents()), selected.value)
      ensures storage == if writeOk then old(storage)[Key := Contents()] else old(storage)
    {
      RemoveTask(selected.value, writeOk);
    }
  }

  /** After a successful write the slot holds the list, so loading it back gives
      the same list: `load(persist(list)) == list`. */
  method LoadAfterStore(store: TaskStore)
    requires store.Valid()
    modifies store
    ensures store.Valid()
    ensures store.Persisted()
    ensures store.Contents() == old(store.Contents())
  {
    store.Store(true);
    store.GetTasks(true);
  }

  /** Pressing the toggle action twice on the same task gives back the list it
      started from, and a successful second write leaves that list persisted. */
  method ToggleTwice(store: TaskStore, i: nat, firstWriteOk: bool)
    requires store.Valid()
    requires i < store.len
    modifies store, store.data
    ensures store.Valid()
    ensures store.Contents() == old(store.Contents())
    ensures store.Persisted()
  {
    ghost var before := store.Contents();
    store.ToggleAction(Some(i), firstWriteOk);
    store.ToggleAction(Some(i), true);
    SetStatusBack(before, i, !before[i].status);
  }

  /** The worked scenarios of the screen: loading from an empty device, adding
      two tasks, marking one done, toggling back, and deleting. */
  method Scenarios(t1: string, t2: string)
  {
    var store := new TaskStore(map[]);
    store.GetTasks(true);
    assert store.Contents() == [];

    store.AddTask("Buy milk", t1, true);
    assert store.Contents() == [Task("Buy milk", false, t1)];
    assert store.Persisted();

    store.AddTask("B", t2, true);
    assert store.Contents() == [Task("B", false, t2), Task("Buy milk", false, t1)];

    assert store.ToggleLabel(Some(1)) == "Done";
    store.ToggleAction(Some(1), true);
    assert store.Contents()[1] == Task("Buy milk", true, t1);
    assert store.ToggleLabel(Some(1)) == "Todo";
    store.ToggleAction(Some(1), true);
    assert store.Contents() == [Task("B", false, t2), Task("Buy milk", false, t1)];

    store.DeleteAction(Some(0), true);
    assert store.Contents() == [Task("Buy milk", false, t1)];
    store.RemoveTask(0, false);
    assert store.Contents() == [];
    assert store.storage[Key] == [Task("Buy milk", false, t1)];
  }
}
