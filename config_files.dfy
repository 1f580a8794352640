/** The two configuration files the model viewer of safetensors_viewer.py
    writes for Stable Diffusion WebUI: the `COMMANDLINE_ARGS` line of
    `webui-user.bat`, which points the WebUI at the application's model
    folders, and the `.json` sidecar next to a model, whose description and
    activation text are filled from the editor. A file's text is the list of
    its lines as `readlines` returns them, each with its line break. */
module ConfigFiles {
  import opened Common
  import Metadata

  const ArgsPrefix: string := "set COMMANDLINE_ARGS="

  predicate StartsWith(s: string, prefix: string) {
    prefix <= s
  }

  /** The `COMMANDLINE_ARGS` line for the application's working directory,
      with backslashes turned into forward slashes. */
  function ArgsLine(cwd: string): (r: string)
    ensures StartsWith(r, ArgsPrefix)
  {
    var d := ReplaceAll(cwd, [Sep], "/");
    ArgsPrefix + "--ckpt-dir " + d + "/checkpoints --lora-dir " + d + "/loras --vae-dir " + d
    + "/vae --embeddings-dir " + d + "/embeddings --gfpgan-models-path " + d
    + "/upscale_models --esrgan-models-path " + d + "/upscale_models --controlnet-dir " + d + "/controlnet"
  }

  /** The file `create_config` writes when there is none. */
  function NewBat(args: string): seq<string> {
    ["@echo off\n", args + "\n", "call webui.bat\n"]
  }

  /** The first line that starts with the `COMMANDLINE_ARGS` assignment. */
  function FirstArgsLine(lines: seq<string>): (r: Option<nat>)
    ensures r.Some? ==> r.value < |lines| && StartsWith(lines[r.value], ArgsPrefix)
    ensures r.Some? ==> forall j :: 0 <= j < r.value ==> !StartsWith(lines[j], ArgsPrefix)
    ensures r.None? ==> forall j :: 0 <= j < |lines| ==> !StartsWith(lines[j], ArgsPrefix)
  {
    if lines == [] then None
    else if StartsWith(lines[0], ArgsPrefix) then Some(0)
    else match FirstArgsLine(lines[1..])
      case None => None
      case Some(i) => Some(i + 1)
  }

  /** Python `lines.insert(1, x)`: on an empty list the line becomes the only
      one. */
  function InsertSecond(lines: seq<string>, x: string): seq<string> {
    if |lines| >= 1 then lines[..1] + [x] + lines[1..] else lines + [x]
  }

  datatype BatOutcome =
    | NoRoot      // the root directory field is blank
    | BadRoot     // the root directory does not exist
    | Declined    // the user kept the existing arguments
    | Written(lines: seq<string>)

  /** `create_config`: `root` is the text of the directory field, `dirs` the
      directories that exist, `existing` the lines of `webui-user.bat` if the
      file exists, `confirm` the answer to the replace question. */
  function CreateConfig(root: string, dirs: set<string>, existing: Option<seq<string>>, cwd: string, confirm: bool): BatOutcome {
    var path := Strip(root);
    var args := ArgsLine(cwd);
    if path == "" then NoRoot
    else if path !in dirs then BadRoot
    else match existing
      case None => Written(NewBat(args))
      case Some(lines) =>
        match FirstArgsLine(lines)
        case Some(i) => if confirm then Written(lines[i := args + "\n"]) else Declined
        case None => Written(InsertSecond(lines, args + "\n"))
  }

  /** The `for i, line in enumerate(lines)` search and the rewrite of an
      existing file. */
  method RewriteBat(lines: seq<string>, args: string, confirm: bool) returns (r: BatOutcome)
    ensures r == (match FirstArgsLine(lines)
                  case Some(i) => if confirm then Written(lines[i := args + "\n"]) else Declined
                  case None => Written(InsertSecond(lines, args + "\n")))
  {
    var found := false;
    var out := lines;
    var i := 0;
    while i < |lines|
      invariant 0 <= i <= |lines|
      invariant forall j :: 0 <= j < i ==> !StartsWith(lines[j], ArgsPrefix)
    {
      if StartsWith(lines[i], ArgsPrefix) {
        if !confirm {
          return Declined;
        }
        out := out[i := args + "\n"];
        found := true;
        break;
      }
      i := i + 1;
    }
    if !found {
      out := InsertSecond(out, args + "\n");
    }
    r := Written(out);
  }

  /** Writing the arguments puts them at the first `COMMANDLINE_ARGS` line:
      in place of the old one, which is the only line changed, or as a new
      second line when there was none. */
  lemma WrittenShape(lines: seq<string>, args: string)
    requires StartsWith(args, ArgsPrefix)
    ensures match FirstArgsLine(lines)
      case Some(i) =>
        var out := lines[i := args + "\n"];
        |out| == |lines| && FirstArgsLine(out) == Some(i) && out[i] == args + "\n"
        && forall j :: 0 <= j < |lines| && j != i ==> out[j] == lines[j]
      case None =>
        var out := InsertSecond(lines, args + "\n");
        var k := if |lines| >= 1 then 1 else 0;
        |out| == |lines| + 1 && FirstArgsLine(out) == Some(k) && out[k] == args + "\n"
        && out[..k] + out[k + 1..] == lines
  {
    match FirstArgsLine(lines)
    case Some(i) =>
      var out := lines[i := args + "\n"];
      FirstArgsLineAt(out, i);
    case None =>
      var out := InsertSecond(lines, args + "\n");
      var k := if |lines| >= 1 then 1 else 0;
      assert out[k] == args + "\n";
      assert forall j :: 0 <= j < k ==> out[j] == lines[j];
      FirstArgsLineAt(out, k);
      assert out[..k] + out[k + 1..] == lines;
  }

  /** A line starting with the assignment and none before it: the search
      stops there. */
  lemma {:induction false} FirstArgsLineAt(lines: seq<string>, i: nat)
    requires i < |lines| && StartsWith(lines[i], ArgsPrefix)
    requires forall j :: 0 <= j < i ==> !StartsWith(lines[j], ArgsPrefix)
    ensures FirstArgsLine(lines) == Some(i)
  {
    if i > 0 {
      FirstArgsLineAt(lines[1..], i - 1);
    }
  }

  /** Running the configuration a second time (and agreeing to replace)
      leaves the file as the first run wrote it. */
  lemma CreateConfigIdempotent(root: string, dirs: set<string>, existing: Option<seq<string>>, cwd: string, confirm: bool)
    requires CreateConfig(root, dirs, existing, cwd, confirm).Written?
    ensures var out := CreateConfig(root, dirs, existing, cwd, confirm).lines;
      CreateConfig(root, dirs, Some(out), cwd, true) == Written(out)
  {
    var args := ArgsLine(cwd);
    match existing
    case None =>
      FirstArgsLineAt(NewBat(args), 1);
      assert NewBat(args)[1 := args + "\n"] == NewBat(args);
    case Some(lines) =>
      WrittenShape(lines, args);
      match FirstArgsLine(lines)
      case Some(i) =>
        var out := lines[i := args + "\n"];
        assert out[i := args + "\n"] == out;
      case None =>
        var out := InsertSecond(lines, args + "\n");
        var k := if |lines| >= 1 then 1 else 0;
        assert out[k := args + "\n"] == out;
  }

  // ---------------------------------------------------------------------
  // setup_sd_json.

  /** What `json.load` made of an existing sidecar. */
  datatype Sidecar = Absent | Unparsable | Parsed(obj: Metadata.Record)

  const DescriptionKey: string := "description"
  const ActivationKey: string := "activation text"

  /** The record written when there is no usable sidecar. */
  function SdDefault(description: string, trigger: string): Metadata.Record {
    map[DescriptionKey := Metadata.Str(description), "sd version" := Metadata.Str(""),
        ActivationKey := Metadata.Str(trigger), "preferred weight" := Metadata.Num(0),
        "negative text" := Metadata.Str(""), "notes" := Metadata.Str("")]
  }

  /** The record `setup_sd_json` writes: an existing sidecar with only its
      description and activation text replaced, otherwise the default. The
      two texts are the editor's, stripped. */
  function SdJson(existing: Sidecar, descriptionText: string, triggerText: string): (r: Metadata.Record)
    ensures DescriptionKey in r && r[DescriptionKey] == Metadata.Str(Strip(descriptionText))
    ensures ActivationKey in r && r[ActivationKey] == Metadata.Str(Strip(triggerText))
    ensures existing.Parsed? ==> r.Keys == existing.obj.Keys + {DescriptionKey, ActivationKey}
    ensures existing.Parsed? ==>
      forall k :: k in existing.obj && k != DescriptionKey && k != ActivationKey ==> r[k] == existing.obj[k]
    ensures !existing.Parsed? ==> r.Keys == {DescriptionKey, "sd version", ActivationKey, "preferred weight", "negative text", "notes"}
  {
    var description := Strip(descriptionText);
    var trigger := Strip(triggerText);
    match existing
    case Parsed(obj) => obj[DescriptionKey := Metadata.Str(description)][ActivationKey := Metadata.Str(trigger)]
    case _ => SdDefault(description, trigger)
  }

  /** Writing the sidecar again from the same editor texts changes nothing. */
  lemma SdJsonIdempotent(existing: Sidecar, descriptionText: string, triggerText: string)
    ensures SdJson(Parsed(SdJson(existing, descriptionText, triggerText)), descriptionText, triggerText)
            == SdJson(existing, descriptionText, triggerText)
  {
    var r := SdJson(existing, descriptionText, triggerText);
    var again := SdJson(Parsed(r), descriptionText, triggerText);
    assert again.Keys == r.Keys;
  }
}
