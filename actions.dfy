/** The actions a tool reads from the `.json` file of the model's output.
    The line parser that reads them is a foreign call and arrives as a
    parameter. */
module Actions {
  import opened Wrappers
  import opened JsValues
  import opened Files

  /** One parsed action; its fields are whatever the parser read. */
  datatype Action = Action(comId: Value, actionType: Value, target: Value, params: Value)

  /** The actions a tool reads from its files: the parser's reading of the
      last `.json` file's content, none when there is no such file. */
  function ParsedActions(files: RxFiles, parse: string -> seq<Action>): seq<Action> {
    var f := LastMatch(files, "json");
    if f.Some? then parse(f.value.content) else []
  }

  /** Reads the actions out of the `.json` file, as `stream` and `execute`
      both do. */
  method ReadActions(files: RxFiles, parse: string -> seq<Action>) returns (found: bool, actions: seq<Action>)
    ensures found <==> LastMatch(files, "json").Some?
    ensures actions == ParsedActions(files, parse)
  {
    var actionsFile := GetFiles(files, Some("json"));
    LastMatchIsGetFiles(files, "json", actionsFile);
    found := actionsFile.Some?;
    actions := [];
    if actionsFile.Some? {
      actions := parse(actionsFile.value.file.content);
    }
  }
}
