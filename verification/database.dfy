/** The store behind the server: three engines, and the dispatch of commands to them. */
module Database {
  import opened Bytes
  import opened Kv
  import opened Commands
  import opened RbTree
  import opened HashEngine
  import opened SkipListEngine
  import opened SkipLevels

  /** The answer that the dispatch chooses for what an engine returned. */
  function Chosen(verb: Verb, ret: int, result: Option<Str>): Reply {
    match verb
    case Set => if ret < 0 then Error else if ret == 0 then Ok else Exists
    case Get => if result.None? then NoExist else Bulk(result.value)
    case Del => if ret < 0 then Error else if ret == 0 then Ok else NoExist
    case Mod => if ret < 0 then Error else if ret == 0 then Ok else NoExist
    case Exist => if ret == 0 then Exists else NoExist
  }

  /** A command of the tree: what it leaves there, and what it returns. */
  method RunRbtree(e: RedBlackTree, verb: Verb, key: Option<Str>, value: Option<Str>) returns (ret: int, result: Option<Str>)
    requires e.Valid()
    modifies e, e.mem.Keys
    ensures e.Valid() && fresh(e.mem.Keys - old(e.mem.Keys))
    ensures e.Contents() == After(verb, old(e.Contents()), key, value)
    ensures Chosen(verb, ret, result) == Answer(Rbtree, verb, old(e.Contents()), key, value)
  {
    hide RedBlackTree.Valid, RedBlackTree.Contents;
    ret, result := 0, None;
    match verb {
      case Set => ret := e.Set(key, value);
      case Get => result := e.Get(key);
      case Del => ret := e.Del(key);
      case Mod => ret := e.Mod(key, value);
      case Exist => ret := e.Exist(key);
    }
  }

  /** A command of the hash table: what it leaves there, and what it returns. */
  method RunHash(e: HashTable, verb: Verb, key: Option<Str>, value: Option<Str>) returns (ret: int, result: Option<Str>)
    requires e.Valid() && Defined(Hash, verb, e.Contents(), key, value)
    modifies e, e.nodes, e.mem.Keys
    ensures e.Valid() && fresh(e.mem.Keys - old(e.mem.Keys))
    ensures e.Contents() == After(verb, old(e.Contents()), key, value)
    ensures Chosen(verb, ret, result) == Answer(Hash, verb, old(e.Contents()), key, value)
  {
    hide HashTable.Valid, HashTable.Contents;
    ret, result := 0, None;
    match verb {
      case Set => ret := e.Set(key, value);
      case Get => result := e.Get(key);
      case Del => ret := e.Del(key);
      case Mod => ret := e.Mod(key, value);
      case Exist => ret := e.Exist(key);
    }
  }

  /** A command of the skip list: what it leaves there, and what it returns. */
  method RunSkiplist(e: SkipList, verb: Verb, key: Option<Str>, value: Option<Str>, level: nat) returns (ret: int, result: Option<Str>)
    requires e.Valid() && level < MAX_LEVEL
    modifies e, e.mem.Keys
    ensures e.Valid() && fresh(e.mem.Keys - old(e.mem.Keys))
    ensures e.Contents() == After(verb, old(e.Contents()), key, value)
    ensures Chosen(verb, ret, result) == Answer(Skiplist, verb, old(e.Contents()), key, value)
  {
    hide SkipList.Valid, SkipList.Contents;
    ret, result := 0, None;
    match verb {
      case Set => ret := e.Set(key, value, level);
      case Get => result := e.Get(key);
      case Del => ret := e.Del(key);
      case Mod => ret := e.Mod(key, value);
      case Exist => ret := e.Exist(key);
    }
  }

  class Engines {
    const rb: RedBlackTree
    const hash: HashTable
    const skip: SkipList

    /** Everything that a command may change. */
    ghost var repr: set<object>

    ghost predicate Valid()
      reads this, repr
    {
      && this in repr && rb in repr && hash in repr && hash.nodes in repr && skip in repr
      && rb.mem.Keys <= repr && hash.mem.Keys <= repr && skip.mem.Keys <= repr
      && rb.Valid() && hash.Valid() && skip.Valid()
    }

    ghost function State(): Db
      requires Valid()
      reads this, repr
    {
      Db(rb.Contents(), hash.Contents(), skip.Contents())
    }

    constructor (xxh: Str -> nat)
      ensures Valid() && State() == EMPTY && fresh(repr)
    {
      hide RedBlackTree.Valid, RedBlackTree.Contents, HashTable.Valid, HashTable.Contents, SkipList.Valid, SkipList.Contents;
      rb := new RedBlackTree();
      hash := new HashTable(xxh);
      skip := new SkipList();
      new;
      repr := {this, rb, hash, hash.nodes, skip} + rb.mem.Keys + hash.mem.Keys + skip.mem.Keys;
    }

    method OnRbtree(verb: Verb, key: Option<Str>, value: Option<Str>) returns (reply: Reply)
      requires Valid()
      modifies repr
      ensures Valid() && fresh(repr - old(repr))
      ensures State() == old(State()).(rb := After(verb, old(State().rb), key, value))
      ensures reply == Answer(Rbtree, verb, old(State().rb), key, value)
    {
      hide Answer, After, Chosen, Defined, RedBlackTree.Valid, RedBlackTree.Contents, HashTable.Valid, HashTable.Contents, SkipList.Valid,
        SkipList.Contents;
      var ret, result := RunRbtree(rb, verb, key, value);
      repr := repr + rb.mem.Keys;
      reply := Chosen(verb, ret, result);
    }

    method OnHash(verb: Verb, key: Option<Str>, value: Option<Str>) returns (reply: Reply)
      requires Valid() && Defined(Hash, verb, State().hash, key, value)
      modifies repr
      ensures Valid() && fresh(repr - old(repr))
      ensures State() == old(State()).(hash := After(verb, old(State().hash), key, value))
      ensures reply == Answer(Hash, verb, old(State().hash), key, value)
    {
      hide Answer, After, Chosen, Defined, RedBlackTree.Valid, RedBlackTree.Contents, HashTable.Valid, HashTable.Contents, SkipList.Valid,
        SkipList.Contents;
      var ret, result := RunHash(hash, verb, key, value);
      repr := repr + hash.mem.Keys;
      reply := Chosen(verb, ret, result);
    }

    method OnSkiplist(verb: Verb, key: Option<Str>, value: Option<Str>, level: nat) returns (reply: Reply)
      requires Valid() && level < MAX_LEVEL
      modifies repr
      ensures Valid() && fresh(repr - old(repr))
      ensures State() == old(State()).(skip := After(verb, old(State().skip), key, value))
      ensures reply == Answer(Skiplist, verb, old(State().skip), key, value)
    {
      hide Answer, After, Chosen, Defined, RedBlackTree.Valid, RedBlackTree.Contents, HashTable.Valid, HashTable.Contents, SkipList.Valid,
        SkipList.Contents;
      var ret, result := RunSkiplist(skip, verb, key, value, level);
      repr := repr + skip.mem.Keys;
      reply := Chosen(verb, ret, result);
    }

    /** Dispatch a command; level is what the skip list would draw for a new node. */
    method Execute(c: Command, level: nat) returns (reply: Option<Reply>, logged: bool)
      requires Valid() && c != [] && level < MAX_LEVEL && DefinedOn(State(), c)
      modifies repr
      ensures Valid() && fresh(repr - old(repr))
      ensures State() == Exec(old(State()), c) && logged == Logged(old(State()), c)
      ensures reply == AnswerTo(old(State()), c)
    {
      hide RedBlackTree.Valid, RedBlackTree.Contents, HashTable.Valid, HashTable.Contents, SkipList.Valid, SkipList.Contents;
      var named := Named(c[0]);
      var key, value := Token(c, 1), Token(c, 2);
      if named.None? {
        return None, false;
      }
      var (e, verb) := named.value;
      ExecIs(State(), c, e, verb);
      hide Answer, Exec, Logged, After, Named, Engines.Valid, Engines.State;
      var r;
      match e {
        case Rbtree => r := OnRbtree(verb, key, value);
        case Hash => r := OnHash(verb, key, value);
        case Skiplist => r := OnSkiplist(verb, key, value, level);
      }
      return Some(r), verb in {Set, Del, Mod} && r == Ok;
    }
  }
}
