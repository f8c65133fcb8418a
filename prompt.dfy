/** `compose_prompt` of td_generation/prompt_creation.py: validate the
    configuration, choose its template, check that both files exist and that
    the template holds the placeholder, then substitute the input text.

    The file system is a map from path to text: a path exists exactly when
    it is a key, and `read_text` returns its value. */
module Prompt {
  import opened Wrappers
  import opened Strings

  /** The defaults of `prompt_dir` and `placeholder`. */
  const DefaultPromptDir: string := "../prompts"
  const DefaultPlaceholder: string := "{input}"

  const BaselineTemplate: string := "baseline_prompt.txt"
  const GuidedTemplate: string := "guided_prompt.txt"

  /** The exceptions `compose_prompt` raises. */
  datatype PromptError =
    | InvalidConfiguration(configuration: string)     // ValueError
    | FileNotFound(path: string)                      // FileNotFoundError
    | NoInputFile                                     // AttributeError: input_file is None
    | PlaceholderNotFound(placeholder: string, path: string)  // ValueError

  /** `dir / name`. */
  function JoinPath(dir: string, name: string): string {
    dir + "/" + name
  }

  /** The configurations accepted after upper-casing. */
  predicate IsConfiguration(configuration: string) {
    configuration == "BASELINE" || configuration == "GUIDED"
  }

  /** The template file of an accepted configuration. */
  function TemplateFile(promptDir: string, configuration: string): string
    requires IsConfiguration(configuration)
  {
    JoinPath(promptDir, if configuration == "BASELINE" then BaselineTemplate else GuidedTemplate)
  }

  /** `compose_prompt(configuration, prompt_dir, input_file, placeholder)`
      over the file system `files`. */
  function ComposePrompt(files: map<string, string>, configuration: string,
                         promptDir: string := DefaultPromptDir, inputFile: Option<string> := None,
                         placeholder: string := DefaultPlaceholder): (r: Result<string, PromptError>)
    ensures r.Ok? <==>
      && IsConfiguration(Upper(configuration))
      && TemplateFile(promptDir, Upper(configuration)) in files
      && inputFile.Some? && inputFile.value in files
      && Contains(files[TemplateFile(promptDir, Upper(configuration))], placeholder)
    ensures r.Ok? ==> Contains(r.value, files[inputFile.value])
  {
    var configuration := Upper(configuration);
    if !IsConfiguration(configuration) then Err(InvalidConfiguration(configuration))
    else
      var promptFile := TemplateFile(promptDir, configuration);
      if promptFile !in files then Err(FileNotFound(promptFile))
      else if inputFile.None? then Err(NoInputFile)
      else if inputFile.value !in files then Err(FileNotFound(inputFile.value))
      else
        var promptTemplate := files[promptFile];
        var inputText := files[inputFile.value];
        if !Contains(promptTemplate, placeholder) then Err(PlaceholderNotFound(placeholder, promptFile))
        else
          ReplacePresent(promptTemplate, placeholder, inputText);
          Ok(ReplaceAll(promptTemplate, placeholder, inputText))
  }

  /** Left at its default, `input_file` is None, so the call always fails:
      with NoInputFile once the configuration and its template check out. */
  lemma DefaultInputFileFails(files: map<string, string>, configuration: string)
    ensures ComposePrompt(files, configuration).Err?
    ensures IsConfiguration(Upper(configuration)) && TemplateFile(DefaultPromptDir, Upper(configuration)) in files ==>
      ComposePrompt(files, configuration) == Err(NoInputFile)
  {
  }

  /** The configuration is accepted exactly when, upper-cased, it is
      BASELINE or GUIDED; otherwise the error names the upper-cased value. */
  lemma ConfigurationChecked(configuration: string, promptDir: string, inputFile: Option<string>,
                             placeholder: string, files: map<string, string>)
    ensures ComposePrompt(files, configuration, promptDir, inputFile, placeholder) == Err(InvalidConfiguration(Upper(configuration)))
      <==> Upper(configuration) != "BASELINE" && Upper(configuration) != "GUIDED"
  {
  }

  /** The letter case of the configuration does not matter. */
  lemma ConfigurationIgnoresCase(configuration: string, promptDir: string, inputFile: Option<string>,
                                 placeholder: string, files: map<string, string>)
    ensures ComposePrompt(files, Upper(configuration), promptDir, inputFile, placeholder)
         == ComposePrompt(files, configuration, promptDir, inputFile, placeholder)
  {
    UpperIdempotent(configuration);
  }

  /** BASELINE and GUIDED select their own, distinct, template files. */
  lemma TemplateChoice(promptDir: string)
    ensures TemplateFile(promptDir, "BASELINE") == promptDir + "/baseline_prompt.txt"
    ensures TemplateFile(promptDir, "GUIDED") == promptDir + "/guided_prompt.txt"
    ensures TemplateFile(promptDir, "BASELINE") != TemplateFile(promptDir, "GUIDED")
  {
    var b, g := TemplateFile(promptDir, "BASELINE"), TemplateFile(promptDir, "GUIDED");
    assert b[|promptDir| + 1] == 'b' && g[|promptDir| + 1] == 'g';
  }

  /** The checks run in order: a missing template is reported before
      anything about the input file, and both files are checked before the
      placeholder. */
  lemma CheckOrder(configuration: string, promptDir: string, inputFile: Option<string>,
                   placeholder: string, files: map<string, string>)
    requires IsConfiguration(Upper(configuration))
    ensures TemplateFile(promptDir, Upper(configuration)) !in files ==>
      ComposePrompt(files, configuration, promptDir, inputFile, placeholder)
        == Err(FileNotFound(TemplateFile(promptDir, Upper(configuration))))
    ensures TemplateFile(promptDir, Upper(configuration)) in files && inputFile.None? ==>
      ComposePrompt(files, configuration, promptDir, inputFile, placeholder) == Err(NoInputFile)
    ensures TemplateFile(promptDir, Upper(configuration)) in files && inputFile.Some? && inputFile.value !in files ==>
      ComposePrompt(files, configuration, promptDir, inputFile, placeholder) == Err(FileNotFound(inputFile.value))
    ensures TemplateFile(promptDir, Upper(configuration)) in files && inputFile.Some? && inputFile.value in files &&
            !Contains(files[TemplateFile(promptDir, Upper(configuration))], placeholder) ==>
      ComposePrompt(files, configuration, promptDir, inputFile, placeholder)
        == Err(PlaceholderNotFound(placeholder, TemplateFile(promptDir, Upper(configuration))))
  {
  }

  /** On success the prompt is the template with every occurrence of the
      placeholder replaced by the input text; were the input text the
      placeholder itself, the template would come back unchanged. */
  lemma Substitution(configuration: string, promptDir: string, inputFile: Option<string>,
                     placeholder: string, files: map<string, string>)
    requires ComposePrompt(files, configuration, promptDir, inputFile, placeholder).Ok?
    ensures ComposePrompt(files, configuration, promptDir, inputFile, placeholder).value
      == ReplaceAll(files[TemplateFile(promptDir, Upper(configuration))], placeholder, files[inputFile.value])
    ensures files[inputFile.value] == placeholder ==>
      ComposePrompt(files, configuration, promptDir, inputFile, placeholder).value
        == files[TemplateFile(promptDir, Upper(configuration))]
  {
    ReplaceBySelf(files[TemplateFile(promptDir, Upper(configuration))], placeholder);
  }
}
