/** The state file: the state in memory, the file it is saved to, and the temporary file a
    save goes through. */
module StateFiles {
  import opened Seqs
  import opened Domain
  import S = State
  import Todos

  /** Where a save stops: the directory cannot be made, the temporary file is written in part,
      the rename fails, or all is done. */
  datatype SaveOutcome = MkdirFailed | WriteFailed(partial: Bytes) | RenameFailed | Done

  /** The state file after an operation with this effect. */
  function FileAfter(codec: S.StateCodec, file: Option<Bytes>, e: S.Effect, save: SaveOutcome): Option<Bytes> {
    if e.saves && save == Done then Some(codec.encode(e.data)) else file
  }

  class StateFile {
    const codec: S.StateCodec
    var nextMessageId: int
    var nextTodoId: int
    var weather: Weather
    var users: seq<User>
    var devices: seq<Device>
    var messages: seq<Message>
    var todos: seq<Todo>
    var file: Option<Bytes>
    var tmp: Option<Bytes>

    function Data(): S.StateData
      reads this
    {
      S.StateData(nextMessageId, nextTodoId, weather, users, devices, messages, todos)
    }

    /** A new state over what is on disk, not yet read. */
    constructor (codec: S.StateCodec, file: Option<Bytes>, tmp: Option<Bytes>, now: Time)
      ensures this.codec == codec && this.file == file && this.tmp == tmp
      ensures Data() == S.Fresh(now)
    {
      this.codec, this.file, this.tmp := codec, file, tmp;
      nextMessageId, nextTodoId, weather := 1, 1, S.DefaultWeather(now);
      users, devices, messages, todos := [], [], [], [];
    }

    method Load(readable: bool, now: Time) returns (err: bool)
      requires Data() == S.Fresh(now)
      modifies this
      ensures file == old(file) && tmp == old(tmp)
      ensures match S.Load(codec, file, readable, now)
              case Ok(d) => !err && Data() == d
              case Err => err
    {
      if file == None {
        return false;
      }
      if !readable {
        return true;
      }
      if |file.value| == 0 {
        return false;
      }
      var decoded := codec.decode(Data(), file.value);
      if decoded == Err {
        return true;
      }
      var d := decoded.value;
      nextMessageId, nextTodoId, weather := d.nextMessageId, d.nextTodoId, d.weather;
      users, devices, messages, todos := d.users, d.devices, d.messages, d.todos;
      Normalize(now);
      return false;
    }

    method Normalize(now: Time)
      modifies this
      ensures Data() == S.Normalize(old(Data()), now)
      ensures file == old(file) && tmp == old(tmp)
    {
      if nextMessageId == 0 {
        nextMessageId := |messages| + 1;
      }
      if nextTodoId == 0 {
        nextTodoId := NextTodoId(todos);
      }
      if weather.location == "" {
        weather := S.DefaultWeather(now);
      }
      RepairMessages();
    }

    method RepairMessages()
      modifies this`messages
      ensures messages == S.RepairAll(old(messages))
    {
      var i := 0;
      while i < |messages|
        invariant i <= |messages| == old(|messages|)
        invariant forall j :: 0 <= j < i ==> messages[j] == S.Repaired(old(messages)[j])
        invariant forall j :: i <= j < |messages| ==> messages[j] == old(messages)[j]
      {
        if messages[i].priority == NoPriority {
          messages := messages[i := messages[i].(priority := Normal)];
        }
        if messages[i].status == Unset {
          messages := messages[i := messages[i].(status := Pending)];
        }
        i := i + 1;
      }
    }

    static method NextTodoId(items: seq<Todo>) returns (next: int)
      ensures next == NextAfter(Todos.Ids(items))
    {
      next := 1;
      var i := 0;
      while i < |items|
        invariant i <= |items|
        invariant next == NextAfter(Todos.Ids(items[..i]))
      {
        if items[i].id >= next {
          next := items[i].id + 1;
        }
        ghost var ids := Todos.Ids(items[..i + 1]);
        assert ids[..|ids| - 1] == Todos.Ids(items[..i]);
        i := i + 1;
      }
      assert items[..|items|] == items;
    }

    /** The state file changes only at the final rename, and then holds the whole state. */
    method Save(save: SaveOutcome) returns (err: bool)
      modifies this`file, this`tmp
      ensures err <==> save != Done
      ensures file == if err then old(file) else Some(codec.encode(Data()))
    {
      if save == MkdirFailed {
        return true;
      }
      if save.WriteFailed? {
        tmp := Some(save.partial);
        return true;
      }
      tmp := Some(codec.encode(Data()));
      if save == RenameFailed {
        return true;
      }
      file, tmp := tmp, None;
      return false;
    }
  }
}
