/**
 * The answers the command line front end collects (bin/index.js lines
 * 20-39 and 178-181): the project-name validator, the `when` conditions
 * that skip a question already given as a flag, and the merge of flags
 * over prompted answers.
 */
module Questions {
  /** The message `validate` returns for a rejected name, verbatim. */
  const NameError := "Project name may only include letters, numbers, underscores and hashes."

  /** One character of the class `[A-Za-z\-\_\d]` (`\d` is ASCII in JavaScript). */
  predicate InNameClass(c: char)
  {
    ('A' <= c <= 'Z') || ('a' <= c <= 'z') || c == '-' || c == '_' || ('0' <= c <= '9')
  }

  /**
   * `/^([A-Za-z\-\_\d])+$/.test(s)`: one class character, then the rest of
   * the string matched by the same repeated group.
   */
  predicate MatchesNamePattern(s: string): (m: bool)
    ensures m <==> |s| > 0 && forall i :: 0 <= i < |s| ==> InNameClass(s[i])
  {
    |s| > 0 && InNameClass(s[0]) && (|s| == 1 || MatchesNamePattern(s[1..]))
  }

  /** inquirer's reading of a `validate` result: `true`, or a message to show. */
  datatype Verdict = Accept | Reject(message: string)

  function Validate(input: string): (v: Verdict)
    ensures v == Accept <==> |input| > 0 && forall i :: 0 <= i < |input| ==> InNameClass(input[i])
    ensures v.Reject? ==> v.message == NameError
  {
    if MatchesNamePattern(input) then Accept else Reject(NameError)
  }

  /** The empty answer is refused with the fixed message. */
  lemma EmptyNameRejected()
    ensures Validate("") == Reject(NameError)
  {
  }

  /**
   * A name the prompt accepts is a single path component that path.join
   * keeps as it is: it is not empty, has no separator and is not "." or "..".
   */
  lemma AcceptedNameIsComponent(s: string)
    requires Validate(s) == Accept
    ensures s != "" && s != "." && s != ".." && '/' !in s
  {
    assert !InNameClass('.') && !InNameClass('/');
  }

  /** `when: () => !argv[key]`: the question is asked unless the flag holds a truthy (non-empty) string. */
  predicate Asked(flags: map<string, string>, key: string)
  {
    key !in flags || flags[key] == ""
  }

  /**
   * What inquirer hands back: an answer for every question it asked, and a
   * name answer only once `Validate` accepted it.
   */
  predicate Answered(answers: map<string, string>, flags: map<string, string>)
  {
    && (Asked(flags, "template") ==> "template" in answers)
    && (Asked(flags, "name") ==> "name" in answers && Validate(answers["name"]) == Accept)
  }

  /** `Object.assign({}, answers, argv)`: every key of either, the flag winning where both have it. */
  function Merge(answers: map<string, string>, flags: map<string, string>): (m: map<string, string>)
    ensures m.Keys == answers.Keys + flags.Keys
    ensures forall k :: k in flags ==> m[k] == flags[k]
    ensures forall k :: k in answers && k !in flags ==> m[k] == answers[k]
  {
    answers + flags
  }

  /** Whatever was prompted or given as a flag, the merge holds both keys the program reads. */
  lemma MergedHasBothKeys(answers: map<string, string>, flags: map<string, string>)
    requires Answered(answers, flags)
    ensures "template" in Merge(answers, flags) && "name" in Merge(answers, flags)
  {
  }

  /**
   * The name the program uses: the flag's value whenever `--name` was
   * given, even an empty one that let the question be asked.
   */
  lemma FlagNameWins(answers: map<string, string>, flags: map<string, string>)
    requires Answered(answers, flags)
    ensures Merge(answers, flags)["name"] == if "name" in flags then flags["name"] else answers["name"]
  {
  }

  /**
   * The template used: the flag's value whenever `--template` was given,
   * even an empty one that let the question be asked.
   */
  lemma FlagTemplateWins(answers: map<string, string>, flags: map<string, string>)
    requires Answered(answers, flags)
    ensures Merge(answers, flags)["template"] == if "template" in flags then flags["template"] else answers["template"]
  {
  }
}
