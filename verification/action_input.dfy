/**
 * Reading the action's inputs. The inputs are the values the runner hands
 * over by name (an absent name reads as `undefined`); whether a string is a
 * URL the platform's `URL` constructor accepts is a parameter.
 */
module ActionInput {
  import opened Wrappers
  import opened Strings
  import opened Errors

  type Inputs = map<string, string>

  datatype Operation = Deploy | Validate

  /**
   * The action's settings. `label` is never filled in by `GetActionInput`,
   * so it stays `undefined` (None).
   */
  datatype Input = Input(configFile: string, strictSync: bool, appConfigEndpoint: string,
                         operation: Operation, labelName: Option<string>)

  /** The value of an input, `undefined` when it was not given. */
  function NonRequiredInput(inputs: Inputs, name: string): Option<string>
  {
    if name in inputs then Some(inputs[name]) else None
  }

  /** A given, non-empty input (what `!input` rejects is `undefined` and ""). */
  predicate Given(inputs: Inputs, name: string)
  {
    name in inputs && inputs[name] != ""
  }

  function MissingInput(name: string): Error
  {
    ArgumentError("Required input is missing: " + name)
  }

  /** `getRequiredInputString`. */
  function RequiredInputString(inputs: Inputs, name: string): (r: Result<string, Error>)
    ensures r.Ok? <==> Given(inputs, name)
    ensures r.Ok? ==> r.value == inputs[name] && r.value != ""
    ensures r.Err? ==> r.error == MissingInput(name)
  {
    match NonRequiredInput(inputs, name)
    case Some(value) => if value == "" then Err(MissingInput(name)) else Ok(value)
    case None => Err(MissingInput(name))
  }

  /** `getRequiredBooleanInput`: "true" or "false" in any letter case. */
  function RequiredBooleanInput(inputs: Inputs, name: string): (r: Result<bool, Error>)
    ensures r == Ok(true) <==> Given(inputs, name) && ToLower(inputs[name]) == "true"
    ensures r == Ok(false) <==> Given(inputs, name) && ToLower(inputs[name]) == "false"
    ensures !Given(inputs, name) ==> r == Err(MissingInput(name))
    ensures Given(inputs, name) && ToLower(inputs[name]) != "true" && ToLower(inputs[name]) != "false" ==>
      r == Err(ArgumentError("Invalid " + name + " value: " + ToLower(inputs[name])
                             + ". It should be either 'true' or 'false'"))
  {
    if !Given(inputs, name) then Err(MissingInput(name))
    else
      var value := ToLower(inputs[name]);
      if value != "true" && value != "false" then
        Err(ArgumentError("Invalid " + name + " value: " + value + ". It should be either 'true' or 'false'"))
      else Ok(value == "true")
  }

  /** `getOperationType`: deploy when not given, otherwise validate or deploy in any letter case. */
  function OperationType(inputs: Inputs): (r: Result<Operation, Error>)
    ensures !Given(inputs, "operation") ==> r == Ok(Deploy)
    ensures Given(inputs, "operation") ==>
      && (r == Ok(Validate) <==> ToLower(inputs["operation"]) == "validate")
      && (r == Ok(Deploy) <==> ToLower(inputs["operation"]) == "deploy")
    ensures r.Err? ==> r.error == ArgumentError("Invalid operation: " + ToLower(inputs["operation"])
                                                + ". It should be either 'validate' or 'deploy'")
  {
    if !Given(inputs, "operation") then Ok(Deploy)
    else
      var value := ToLower(inputs["operation"]);
      if value == "validate" then Ok(Validate)
      else if value == "deploy" then Ok(Deploy)
      else Err(ArgumentError("Invalid operation: " + value + ". It should be either 'validate' or 'deploy'"))
  }

  /** `removeTrailingSlash`: one trailing "/" is dropped. */
  function RemoveTrailingSlash(url: string): (r: string)
    ensures r == url || r + "/" == url
    ensures |r| >= |url| - 1
  {
    if |url| > 0 && url[|url| - 1] == '/' then url[..|url| - 1] else url
  }

  /** Only one slash goes: a URL ending in "//" keeps one. */
  lemma RemoveTrailingSlashDropsOne(url: string)
    ensures RemoveTrailingSlash(url + "/") == url
    ensures RemoveTrailingSlash(url + "//") == url + "/"
  {
    assert (url + "/")[..|url|] == url;
    assert (url + "//")[..|url| + 1] == url + "/";
  }

  /** A URL not ending in "/" is left as it is. */
  lemma RemoveTrailingSlashKeeps(url: string)
    requires url == [] || url[|url| - 1] != '/'
    ensures RemoveTrailingSlash(url) == url
  {
  }

  /** `getAppConfigEndpoint`: a required input that must be a valid URL, without its trailing slash. */
  function AppConfigEndpoint(inputs: Inputs, isValidUrl: string -> bool): (r: Result<string, Error>)
    ensures r.Ok? <==> Given(inputs, "app-configuration-endpoint") && isValidUrl(inputs["app-configuration-endpoint"])
    ensures r.Ok? ==> r.value == RemoveTrailingSlash(inputs["app-configuration-endpoint"])
    ensures Given(inputs, "app-configuration-endpoint") && !isValidUrl(inputs["app-configuration-endpoint"]) ==>
      r == Err(ArgumentError("Invalid URL: " + inputs["app-configuration-endpoint"]))
  {
    var endpoint :- RequiredInputString(inputs, "app-configuration-endpoint");
    if !isValidUrl(endpoint) then Err(ArgumentError("Invalid URL: " + endpoint))
    else Ok(RemoveTrailingSlash(endpoint))
  }

  /**
   * `getActionInput`. The operation is read first; in validate mode only the
   * path is read. In deploy mode the path, `strict` and the endpoint are read
   * in that order, so the first of them that is wrong is the one reported.
   */
  function GetActionInput(inputs: Inputs, isValidUrl: string -> bool): Result<Input, Error>
  {
    var operation :- OperationType(inputs);
    if operation == Validate then
      var configFile :- RequiredInputString(inputs, "path");
      Ok(Input(configFile, false, "", Validate, None))
    else
      var configFile :- RequiredInputString(inputs, "path");
      var strictSync :- RequiredBooleanInput(inputs, "strict");
      var endpoint :- AppConfigEndpoint(inputs, isValidUrl);
      // The operation is read a second time here; the inputs are the same, so it is Deploy again.
      Ok(Input(configFile, strictSync, endpoint, operation, None))
  }

  /** Every input the chosen operation reads is valid. */
  predicate InputsValid(inputs: Inputs, isValidUrl: string -> bool)
  {
    && OperationType(inputs).Ok?
    && Given(inputs, "path")
    && (OperationType(inputs) == Ok(Deploy) ==>
          && Given(inputs, "strict")
          && (ToLower(inputs["strict"]) == "true" || ToLower(inputs["strict"]) == "false")
          && Given(inputs, "app-configuration-endpoint")
          && isValidUrl(inputs["app-configuration-endpoint"]))
  }

  /** The inputs are accepted iff every input the operation reads is valid, and then they are read as given. */
  lemma GetActionInputAccepts(inputs: Inputs, isValidUrl: string -> bool)
    ensures GetActionInput(inputs, isValidUrl).Ok? <==> InputsValid(inputs, isValidUrl)
    ensures GetActionInput(inputs, isValidUrl).Ok? ==>
      var input := GetActionInput(inputs, isValidUrl).value;
      && input.configFile == inputs["path"]
      && input.operation == OperationType(inputs).value
      && input.labelName.None?
      && (input.operation == Validate ==> !input.strictSync && input.appConfigEndpoint == "")
      && (input.operation == Deploy ==>
            && input.strictSync == (ToLower(inputs["strict"]) == "true")
            && input.appConfigEndpoint == RemoveTrailingSlash(inputs["app-configuration-endpoint"]))
  {
    if OperationType(inputs) == Ok(Deploy) && Given(inputs, "strict") {
      var lower := ToLower(inputs["strict"]);
      if lower == "true" {
        assert RequiredBooleanInput(inputs, "strict") == Ok(true);
      } else if lower == "false" {
        assert RequiredBooleanInput(inputs, "strict") == Ok(false);
      }
    }
  }

  /** Validate mode reads nothing but the operation and the path: `strict` and the endpoint may be anything. */
  lemma ValidateModeIgnoresDeployInputs(inputs: Inputs, other: Inputs, isValidUrl: string -> bool,
                                        otherIsValidUrl: string -> bool)
    requires OperationType(inputs) == Ok(Validate)
    requires NonRequiredInput(other, "operation") == NonRequiredInput(inputs, "operation")
    requires NonRequiredInput(other, "path") == NonRequiredInput(inputs, "path")
    ensures GetActionInput(other, otherIsValidUrl) == GetActionInput(inputs, isValidUrl)
  {
    assert Given(other, "operation") == Given(inputs, "operation");
    assert OperationType(other) == OperationType(inputs);
    assert RequiredInputString(other, "path") == RequiredInputString(inputs, "path");
  }

  /** The operation is matched regardless of letter case. */
  lemma OperationCaseInsensitive(inputs: Inputs, other: Inputs)
    requires Given(inputs, "operation") && Given(other, "operation")
    requires ToLower(other["operation"]) == ToLower(inputs["operation"])
    ensures OperationType(other) == OperationType(inputs)
  {
  }

  /** In deploy mode a missing path is reported before anything about `strict` or the endpoint. */
  lemma PathReportedFirst(inputs: Inputs, isValidUrl: string -> bool)
    requires OperationType(inputs).Ok? && !Given(inputs, "path")
    ensures GetActionInput(inputs, isValidUrl) == Err(MissingInput("path"))
  {
  }

  /** With the path given, a bad `strict` is reported before anything about the endpoint. */
  lemma StrictReportedBeforeEndpoint(inputs: Inputs, isValidUrl: string -> bool)
    requires OperationType(inputs) == Ok(Deploy) && Given(inputs, "path")
    requires RequiredBooleanInput(inputs, "strict").Err?
    ensures GetActionInput(inputs, isValidUrl) == Err(RequiredBooleanInput(inputs, "strict").error)
  {
  }

  /** A value that is not a boolean is reported in lower case. */
  lemma InvalidBooleanReportedLowerCase()
    ensures RequiredBooleanInput(map["strict" := "invalidBoolean"], "strict")
         == Err(ArgumentError("Invalid " + "strict" + " value: " + "invalidboolean" + ". It should be either 'true' or 'false'"))
  {
    var lower := ToLower("invalidBoolean");
    assert lower == "invalidboolean" by {
      assert lower[7] == LowerChar('B') == 'b';
    }
  }

  /** An upper-case "TRUE" is accepted as true. */
  lemma UpperCaseTrueAccepted()
    ensures RequiredBooleanInput(map["strict" := "TRUE"], "strict") == Ok(true)
  {
    assert ToLower("TRUE") == "true";
  }

  /** A deploy run with an endpoint ending in "/" reads the endpoint without it. */
  lemma EndpointTrailingSlashRemoved(isValidUrl: string -> bool)
    requires isValidUrl("https://example.com/")
    ensures var inputs := map["path" := "configFile", "strict" := "true",
                              "app-configuration-endpoint" := "https://example.com/"];
      GetActionInput(inputs, isValidUrl) == Ok(Input("configFile", true, "https://example.com", Deploy, None))
  {
    var inputs := map["path" := "configFile", "strict" := "true",
                      "app-configuration-endpoint" := "https://example.com/"];
    assert !Given(inputs, "operation");
    assert ToLower("true") == "true";
    RemoveTrailingSlashDropsOne("https://example.com");
    assert "https://example.com" + "/" == "https://example.com/";
  }
}
