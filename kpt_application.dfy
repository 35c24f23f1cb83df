/** The KPT ("keep, problem, try") board application: a model of three
    lists of entries, kept as YAML text in the wiki, and the handlers that
    add an entry and hand the re-serialized board back to the editor. */
module KptApplication {
  datatype Option<T> = None | Some(value: T)

  /** What `safeLoad` makes of a text: it throws, or it yields an object
      whose `keeps`, `problems` and `tries` entries are each a list of
      strings or absent (missing or falsy). */
  datatype Parsed = ParseError | Parsed(keeps: Option<seq<string>>, problems: Option<seq<string>>, tries: Option<seq<string>>)

  /** The model's own fields, as a value: what `safeDump` writes out. */
  datatype Board = Board(keeps: seq<string>, problems: seq<string>, tries: seq<string>)

  /** The arguments of one `onEdit` call. The application only passes
      the context on and never looks inside it. */
  datatype Edit<Context> = Edit(text: string, appContext: Context)

  class KPTModel {
    var keeps: seq<string>
    var problems: seq<string>
    var tries: seq<string>

    constructor ()
      ensures keeps == [] && problems == [] && tries == []
    {
      keeps, problems, tries := [], [], [];
    }

    method AddKeep(str: string)
      modifies this
      ensures keeps == old(keeps) + [str]
      ensures problems == old(problems) && tries == old(tries)
    {
      keeps := keeps + [str];
    }

    method AddProblem(str: string)
      modifies this
      ensures problems == old(problems) + [str]
      ensures keeps == old(keeps) && tries == old(tries)
    {
      problems := problems + [str];
    }

    method AddTry(str: string)
      modifies this
      ensures tries == old(tries) + [str]
      ensures keeps == old(keeps) && problems == old(problems)
    {
      tries := tries + [str];
    }

    function Snapshot(): Board
      reads this
    {
      Board(keeps, problems, tries)
    }

    /** The YAML text of the model, `dump` standing for `safeDump`. */
    function Serialize(dump: Board -> string): string
      reads this
    {
      dump(Snapshot())
    }

    /** `deserialize(str)`, `load` standing for `safeLoad`: a fresh model
        holding the board that `Restored` gives for the parsed text. */
    static method Deserialize(str: string, load: string -> Parsed) returns (model: KPTModel)
      ensures fresh(model)
      ensures model.Snapshot() == Restored(load(str))
    {
      var obj := load(str);
      model := new KPTModel();
      match obj
      case ParseError =>
      case Parsed(keeps, problems, tries) =>
        if keeps.Some? {
          model.keeps := keeps.value;
        }
        if problems.Some? {
          model.problems := problems.value;
        }
        if tries.Some? {
          model.tries := tries.value;
        }
    }
  }

  /** The board `deserialize` builds: each list the parsed object supplies
      is taken as it is and the others stay empty; a text that does not
      parse gives the empty board. */
  function Restored(obj: Parsed): (b: Board)
    ensures obj.ParseError? ==> b == Board([], [], [])
    ensures obj.Parsed? ==> b.keeps == (if obj.keeps.Some? then obj.keeps.value else [])
    ensures obj.Parsed? ==> b.problems == (if obj.problems.Some? then obj.problems.value else [])
    ensures obj.Parsed? ==> b.tries == (if obj.tries.Some? then obj.tries.value else [])
  {
    match obj
    case ParseError => Board([], [], [])
    case Parsed(keeps, problems, tries) =>
      var empty := Board([], [], []);
      var withKeeps := if keeps.Some? then empty.(keeps := keeps.value) else empty;
      var withProblems := if problems.Some? then withKeeps.(problems := problems.value) else withKeeps;
      if tries.Some? then withProblems.(tries := tries.value) else withProblems
  }

  /** The application component: the YAML text and the owning node's
      context from its current props, and the model in its state. Every
      edit it reports carries the context of the props it holds at the
      time. */
  class KPTApplication<Context> {
    var data: string
    var kpt: KPTModel
    var appContext: Context
    const load: string -> Parsed
    const dump: Board -> string

    constructor (data: string, appContext: Context, load: string -> Parsed, dump: Board -> string)
      ensures this.data == data && this.appContext == appContext
      ensures this.load == load && this.dump == dump
      ensures fresh(kpt) && kpt.Snapshot() == Restored(load(data))
    {
      this.data := data;
      this.appContext := appContext;
      this.load := load;
      this.dump := dump;
      var model := KPTModel.Deserialize(data, load);
      kpt := model;
    }

    /** `componentWillReceiveProps` followed by React's switch to the new
        props: new `data` is deserialized into a new model only when it
        differs from the current `data`; otherwise the model, with what was
        added to it, stays. The new props' context replaces the old one. */
    method ReceiveProps(newData: string, newContext: Context)
      modifies this
      ensures data == newData && appContext == newContext
      ensures old(data) != newData ==> fresh(kpt) && kpt.Snapshot() == Restored(load(newData))
      ensures old(data) == newData ==> kpt == old(kpt) && kpt.Snapshot() == old(kpt.Snapshot())
    {
      if data != newData {
        kpt := KPTModel.Deserialize(newData, load);
      }
      data, appContext := newData, newContext;
    }

    /** `handleAddKeep` with the input's `value`: nothing happens for an
        empty value; otherwise the entry is added and the serialized model
        is reported with the node's context. */
    method HandleAddKeep(value: string) returns (edit: Option<Edit<Context>>)
      modifies kpt
      ensures value == "" ==> edit == None && kpt.Snapshot() == old(kpt.Snapshot())
      ensures value != "" ==>
                kpt.keeps == old(kpt.keeps) + [value] &&
                kpt.problems == old(kpt.problems) && kpt.tries == old(kpt.tries) &&
                edit == Some(Edit(kpt.Serialize(dump), appContext))
    {
      if value == "" {
        return None;
      }
      kpt.AddKeep(value);
      edit := Some(Edit(kpt.Serialize(dump), appContext));
    }

    /** `handleAddProblem`, likewise for the problems list. */
    method HandleAddProblem(value: string) returns (edit: Option<Edit<Context>>)
      modifies kpt
      ensures value == "" ==> edit == None && kpt.Snapshot() == old(kpt.Snapshot())
      ensures value != "" ==>
                kpt.problems == old(kpt.problems) + [value] &&
                kpt.keeps == old(kpt.keeps) && kpt.tries == old(kpt.tries) &&
                edit == Some(Edit(kpt.Serialize(dump), appContext))
    {
      if value == "" {
        return None;
      }
      kpt.AddProblem(value);
      edit := Some(Edit(kpt.Serialize(dump), appContext));
    }

    /** `handleAddTry`, likewise for the tries list. */
    method HandleAddTry(value: string) returns (edit: Option<Edit<Context>>)
      modifies kpt
      ensures value == "" ==> edit == None && kpt.Snapshot() == old(kpt.Snapshot())
      ensures value != "" ==>
                kpt.tries == old(kpt.tries) + [value] &&
                kpt.keeps == old(kpt.keeps) && kpt.problems == old(kpt.problems) &&
                edit == Some(Edit(kpt.Serialize(dump), appContext))
    {
      if value == "" {
        return None;
      }
      kpt.AddTry(value);
      edit := Some(Edit(kpt.Serialize(dump), appContext));
    }
  }
}
