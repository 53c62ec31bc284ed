/**
 * The user message that `generate_cover_letter` sends to the chat model:
 * the CV text, the job offer and the structure summary, each verbatim after
 * its fixed French label, followed by the fixed instructions.
 */
module Prompt {
  import opened Wrappers
  import LetterStructure

  /** The text before the CV. */
  const Intro: string := "En utilisant les informations suivantes :\n\nCV :\n"

  /** The text between the CV and the job offer. */
  const JobOfferLabel: string := "\n\nOffre d'emploi :\n"

  /** The text between the job offer and the structure summary. */
  const StructureLabel: string := "\n\nStructure des lettres de motivation précédentes :\n"

  /** The numbered instructions after the structure summary, up to the closing newline. */
  const Instructions: string :=
    "\n\nGénérez une lettre de motivation professionnelle en français qui :\n"
    + "1. Suit une structure similaire aux lettres précédentes\n"
    + "2. Utilise spécifiquement les informations pertinentes du CV, en mentionnant les éléments factuels "
    + "et eventuellement techniques qui pourraient correspondre aux exigences ou à l'environement mentionné "
    + "dans l'offre d'emploi\n"
    + "3. Fait référence aux exigences de l'offre d'emploi\n"
    + "4. Est personnalisée et convaincante\n"

  /** The fixed text of a prompt, chunk by chunk. */
  datatype Labels = Labels(intro: string, jobOfferLabel: string, structureLabel: string, instructions: string)

  /** The chunks `generate_cover_letter` uses. */
  const PromptLabels: Labels := Labels(Intro, JobOfferLabel, StructureLabel, Instructions)

  /** The three variable parts of a prompt. */
  datatype Fields = Fields(cvContent: string, jobOffer: string, structure: string)

  /** Where the job offer starts, for a CV of `cvLength` characters. */
  function JobOfferStart(t: Labels, cvLength: nat): nat {
    |t.intro| + cvLength + |t.jobOfferLabel|
  }

  /** Where the structure summary starts. */
  function StructureStart(t: Labels, cvLength: nat, jobLength: nat): nat {
    JobOfferStart(t, cvLength) + jobLength + |t.structureLabel|
  }

  /**
   * The prompt's f-string over the chunks `t`: each variable part appears
   * verbatim at its offset, after its label and in the order CV, job offer,
   * structure, and the prompt opens with the introduction and closes with the
   * instructions.
   */
  function Assemble(t: Labels, cvContent: string, jobOffer: string, structure: string): (prompt: string)
    ensures |prompt| == StructureStart(t, |cvContent|, |jobOffer|) + |structure| + |t.instructions|
    ensures prompt[..|t.intro|] == t.intro
    ensures prompt[|t.intro|..|t.intro| + |cvContent|] == cvContent
    ensures prompt[|t.intro| + |cvContent|..JobOfferStart(t, |cvContent|)] == t.jobOfferLabel
    ensures prompt[JobOfferStart(t, |cvContent|)..JobOfferStart(t, |cvContent|) + |jobOffer|] == jobOffer
    ensures prompt[JobOfferStart(t, |cvContent|) + |jobOffer|..StructureStart(t, |cvContent|, |jobOffer|)] == t.structureLabel
    ensures prompt[StructureStart(t, |cvContent|, |jobOffer|)..|prompt| - |t.instructions|] == structure
    ensures prompt[|prompt| - |t.instructions|..] == t.instructions
  {
    t.intro + cvContent + t.jobOfferLabel + jobOffer + t.structureLabel + structure + t.instructions
  }

  /**
   * The prompt `generate_cover_letter` sends for these inputs, from which
   * the three inputs can be read back unchanged.
   */
  function BuildPrompt(cvContent: string, jobOffer: string, structure: string): (prompt: string)
    ensures Parse(PromptLabels, prompt, |cvContent|, |jobOffer|) == Some(Fields(cvContent, jobOffer, structure))
  {
    ParseAssemble(PromptLabels, cvContent, jobOffer, structure);
    Assemble(PromptLabels, cvContent, jobOffer, structure)
  }

  /**
   * Reads the variable parts back out of a prompt over `t`, given the lengths
   * of the CV and of the job offer; `None` when the fixed text is not where
   * a prompt has it.
   */
  function Parse(t: Labels, prompt: string, cvLength: nat, jobLength: nat): (f: Option<Fields>)
    ensures f.Some? ==> |f.value.cvContent| == cvLength && |f.value.jobOffer| == jobLength
  {
    var a := |t.intro|;
    var b := a + cvLength;
    var c := JobOfferStart(t, cvLength);
    var d := c + jobLength;
    var e := StructureStart(t, cvLength, jobLength);
    if e + |t.instructions| <= |prompt|
      && prompt[..a] == t.intro
      && prompt[b..c] == t.jobOfferLabel
      && prompt[d..e] == t.structureLabel
      && prompt[|prompt| - |t.instructions|..] == t.instructions
    then Some(Fields(prompt[a..b], prompt[c..d], prompt[e..|prompt| - |t.instructions|]))
    else None
  }

  /** The variable parts can be read back from the prompt: nothing is lost or altered. */
  lemma ParseAssemble(t: Labels, cvContent: string, jobOffer: string, structure: string)
    ensures Parse(t, Assemble(t, cvContent, jobOffer, structure), |cvContent|, |jobOffer|)
      == Some(Fields(cvContent, jobOffer, structure))
  {
  }

  /** Any text the reader accepts is the prompt assembled from what it reads. */
  lemma AssembleParse(t: Labels, prompt: string, cvLength: nat, jobLength: nat)
    requires Parse(t, prompt, cvLength, jobLength).Some?
    ensures var f := Parse(t, prompt, cvLength, jobLength).value;
      Assemble(t, f.cvContent, f.jobOffer, f.structure) == prompt
  {
    var a := |t.intro|;
    var b := a + cvLength;
    var c := JobOfferStart(t, cvLength);
    var d := c + jobLength;
    var e := StructureStart(t, cvLength, jobLength);
    var z := |prompt| - |t.instructions|;
    assert prompt[..b] == prompt[..a] + prompt[a..b];
    assert prompt[..c] == prompt[..b] + prompt[b..c];
    assert prompt[..d] == prompt[..c] + prompt[c..d];
    assert prompt[..e] == prompt[..d] + prompt[d..e];
    assert prompt[..z] == prompt[..e] + prompt[e..z];
    assert prompt == prompt[..z] + prompt[z..];
  }

  /** Prompts over the same chunks for inputs of the same lengths differ when the inputs do. */
  lemma AssembleInjective(t: Labels, cv1: string, job1: string, s1: string, cv2: string, job2: string, s2: string)
    requires |cv1| == |cv2| && |job1| == |job2|
    requires Assemble(t, cv1, job1, s1) == Assemble(t, cv2, job2, s2)
    ensures cv1 == cv2 && job1 == job2 && s1 == s2
  {
    ParseAssemble(t, cv1, job1, s1);
    ParseAssemble(t, cv2, job2, s2);
  }

  /**
   * `generate_cover_letter` up to the chat-model call: summarise the existing
   * letters, then build the prompt around the summary.
   */
  method GenerateCoverLetterPrompt(cvContent: string, jobOffer: string, existingLetters: seq<string>)
    returns (prompt: string)
    ensures prompt == BuildPrompt(cvContent, jobOffer, LetterStructure.Structure(existingLetters))
  {
    var structure := LetterStructure.ExtractCoverLetterStructure(existingLetters);
    prompt := BuildPrompt(cvContent, jobOffer, structure);
  }

  /** A summary placed in a prompt opens, right after the structure label, with its fixed header. */
  lemma SummaryHeaderInPrompt(t: Labels, cvContent: string, jobOffer: string, existingLetters: seq<string>)
    ensures var prompt := Assemble(t, cvContent, jobOffer, LetterStructure.Structure(existingLetters));
      var start := StructureStart(t, |cvContent|, |jobOffer|);
      start + |LetterStructure.Header| <= |prompt|
      && prompt[start..start + |LetterStructure.Header|] == LetterStructure.Header
  {
  }
}
