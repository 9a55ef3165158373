/** Quick replies: `generateQuickReplySuggestions` of utils/chat.ts.

    The message is lower-cased and searched for four keywords with plain
    substring inclusion, in priority order. The first group ("mutation",
    "genomic") selects a mutation-oriented list, the second group ("gene",
    "expression") a gene-oriented list, and anything else a fixed default
    list. The two personalized lists interpolate the patient's name. */
module QuickReplies {
  import opened Text

  /** The `patientData` argument as far as the function uses it. `Absent` is
      `null` or `undefined`, whose `name` property cannot be read; `Record`
      carries the text the template literal renders for `patientData.name`. */
  datatype PatientData = Absent | Record(name: string)

  /** What the call produces: a list of suggestions, or the `TypeError`
      thrown when the name of an absent patient record is read. */
  datatype Outcome = Replies(items: seq<string>) | TypeError

  /** The branch a message selects. */
  datatype Branch = Mutation | Gene | Default

  function MutationReplies(name: string): (r: seq<string>)
    ensures |r| == 6
  {
    [ "Show more details about this mutation",
      "What are the clinical implications?",
      "Compare with normal gene sequence",
      "What genetic tests are available for this mutation?",
      "What are the common mutations associated with this condition?",
      "Can you show how this mutation relates to " + name + "'s health history?" ]
  }

  function GeneReplies(name: string): (r: seq<string>)
    ensures |r| == 6
  {
    [ "Show expression levels in detail",
      "How does this affect treatment options?",
      "Are there relevant clinical trials?",
      "What gene therapies are available?",
      "What gene therapies could work best for " + name + "'s condition?",
      "Are there any environmental factors that impact this gene expression?" ]
  }

  const DefaultReplies: seq<string> := [
    "Tell me more about this finding",
    "What are the next steps?",
    "How does this compare to normal values?",
    "Are there any treatment implications?",
    "Can you explain this in simpler terms?"
  ]

  /** The keyword tests on the lower-cased message, in source order. */
  predicate MentionsMutation(content: string) {
    Includes(content, "mutation") || Includes(content, "genomic")
  }

  predicate MentionsGene(content: string) {
    Includes(content, "gene") || Includes(content, "expression")
  }

  function Classify(message: string): Branch {
    var content := ToLowerCase(message);
    if MentionsMutation(content) then Mutation
    else if MentionsGene(content) then Gene
    else Default
  }

  /** `generateQuickReplySuggestions`. */
  function GenerateQuickReplySuggestions(message: string, patient: PatientData): (r: Outcome)
    ensures r.TypeError? <==> patient.Absent? && Classify(message) != Default
    ensures Classify(message) == Default ==> r == Replies(DefaultReplies)
    ensures patient.Record? && Classify(message) == Mutation ==> r == Replies(MutationReplies(patient.name))
    ensures patient.Record? && Classify(message) == Gene ==> r == Replies(GeneReplies(patient.name))
  {
    match Classify(message)
    case Mutation => if patient.Absent? then TypeError else Replies(MutationReplies(patient.name))
    case Gene => if patient.Absent? then TypeError else Replies(GeneReplies(patient.name))
    case Default => Replies(DefaultReplies)
  }

  /** Every list offers at least five suggestions: six on the personalized
      branches, five on the default one. */
  lemma SuggestionCount(message: string, patient: PatientData)
    ensures var r := GenerateQuickReplySuggestions(message, patient);
      r.Replies? ==> |r.items| == (if Classify(message) == Default then 5 else 6) >= 5
  {
  }

  // ---------------------------------------------------------------------
  // Keyword matching

  /** Lower-casing distributes over concatenation. */
  lemma ToLowerCaseAppend(a: string, b: string)
    ensures ToLowerCase(a + b) == ToLowerCase(a) + ToLowerCase(b)
  {
    var l := ToLowerCase(a + b);
    forall k | 0 <= k < |a + b| ensures l[k] == (ToLowerCase(a) + ToLowerCase(b))[k] {
      if k < |a| {
        assert (a + b)[k] == a[k];
      } else {
        assert (a + b)[k] == b[k - |a|];
      }
    }
  }

  /** A keyword is found when the message holds it in any mix of cases: the
      test is case-insensitive on ASCII letters. */
  lemma KeywordIgnoresCase(message: string, keyword: string, i: nat)
    requires forall j :: 0 <= j < |keyword| ==> 'a' <= keyword[j] <= 'z'
    requires i + |keyword| <= |message|
    requires forall j :: 0 <= j < |keyword| ==> LowerChar(message[i + j]) == keyword[j]
    ensures Includes(ToLowerCase(message), keyword)
  {
    var content := ToLowerCase(message);
    forall j | 0 <= j < |keyword| ensures content[i..i + |keyword|][j] == keyword[j] {
      assert content[i + j] == LowerChar(message[i + j]);
    }
    assert content[i..i + |keyword|] == keyword;
    assert OccursAt(content, keyword, i);
  }

  /** Text added before or after a message keeps every keyword it had. */
  lemma IncludesExtended(a: string, m: string, b: string, keyword: string)
    requires Includes(ToLowerCase(m), keyword)
    ensures Includes(ToLowerCase(a + m + b), keyword)
  {
    ToLowerCaseAppend(a + m, b);
    ToLowerCaseAppend(a, m);
    var whole := ToLowerCase(a + m + b);
    var part := ToLowerCase(m);
    var start := |ToLowerCase(a)|;
    assert whole == ToLowerCase(a) + part + ToLowerCase(b);
    assert whole[start..start + |part|] == part;
    assert OccursAt(whole, part, start);
    IncludesTransitive(whole, part, keyword);
  }

  function Rank(b: Branch): nat {
    match b
    case Default => 0
    case Gene => 1
    case Mutation => 2
  }

  /** Priority is monotone: surrounding a message with more text never moves
      it to a lower-priority list. */
  lemma ClassifyMonotone(a: string, m: string, b: string)
    ensures Rank(Classify(a + m + b)) >= Rank(Classify(m))
  {
    var content := ToLowerCase(m);
    if Includes(content, "mutation") { IncludesExtended(a, m, b, "mutation"); }
    if Includes(content, "genomic") { IncludesExtended(a, m, b, "genomic"); }
    if Includes(content, "gene") { IncludesExtended(a, m, b, "gene"); }
    if Includes(content, "expression") { IncludesExtended(a, m, b, "expression"); }
  }

  /** Substring matching: any word containing "gene" (such as "genetic" or
      "general") selects the gene list unless a mutation keyword is present. */
  lemma ContainingGeneSelectsGene(message: string, word: string)
    requires Includes(word, "gene")
    requires Includes(ToLowerCase(message), word)
    requires !MentionsMutation(ToLowerCase(message))
    ensures Classify(message) == Gene
  {
    IncludesTransitive(ToLowerCase(message), word, "gene");
  }

  lemma GeneticAndGeneralContainGene()
    ensures Includes("genetic", "gene") && Includes("general", "gene")
  {
    assert OccursAt("genetic", "gene", 0);
    assert OccursAt("general", "gene", 0);
  }

  /** A mutation keyword wins over a gene keyword: "gene mutation" selects
      the mutation list. */
  lemma MutationBeatsGene()
    ensures Classify("gene mutation") == Mutation
  {
    KeywordIgnoresCase("gene mutation", "mutation", 5);
  }

  /** Upper case counts: "GENOMIC" selects the mutation list. */
  lemma UpperCaseKeyword()
    ensures Classify("GENOMIC") == Mutation
  {
    KeywordIgnoresCase("GENOMIC", "genomic", 0);
  }

  // ---------------------------------------------------------------------
  // The lists

  /** The mutation list has six suggestions, the last one naming the
      patient; the name goes in verbatim. */
  lemma MutationRepliesShape(name: string)
    ensures |MutationReplies(name)| == 6
    ensures MutationReplies(name)[5] == "Can you show how this mutation relates to " + name + "'s health history?"
    ensures forall k :: 0 <= k < 5 ==> MutationReplies(name)[k] == MutationReplies("")[k]
  {
  }

  /** The gene list has six suggestions, the fifth one naming the patient. */
  lemma GeneRepliesShape(name: string)
    ensures |GeneReplies(name)| == 6
    ensures GeneReplies(name)[4] == "What gene therapies could work best for " + name + "'s condition?"
    ensures forall k :: 0 <= k < 6 && k != 4 ==> GeneReplies(name)[k] == GeneReplies("")[k]
  {
  }

  /** The list tells which branch fired: the three lists differ from each
      other whatever the names, so exactly one branch produced it. */
  lemma ListsDistinct(n1: string, n2: string)
    ensures MutationReplies(n1) != GeneReplies(n2)
    ensures MutationReplies(n1) != DefaultReplies
    ensures GeneReplies(n1) != DefaultReplies
  {
    assert MutationReplies(n1)[0] != GeneReplies(n2)[0];
    assert MutationReplies(n1)[0] != DefaultReplies[0];
    assert GeneReplies(n1)[0] != DefaultReplies[0];
  }

  /** The personalized lists tell the name apart: different names give
      different lists. */
  lemma MutationRepliesDetermineName(n1: string, n2: string)
    ensures MutationReplies(n1) == MutationReplies(n2) <==> n1 == n2
  {
    if MutationReplies(n1) == MutationReplies(n2) {
      assert MutationReplies(n1)[5] == MutationReplies(n2)[5];
      NameFromReply("Can you show how this mutation relates to ", n1, n2, "'s health history?");
    }
  }

  lemma GeneRepliesDetermineName(n1: string, n2: string)
    ensures GeneReplies(n1) == GeneReplies(n2) <==> n1 == n2
  {
    if GeneReplies(n1) == GeneReplies(n2) {
      assert GeneReplies(n1)[4] == GeneReplies(n2)[4];
      NameFromReply("What gene therapies could work best for ", n1, n2, "'s condition?");
    }
  }

  /** A reply built from a fixed prefix and suffix determines the name. */
  lemma NameFromReply(p: string, n1: string, n2: string, x: string)
    requires p + n1 + x == p + n2 + x
    ensures n1 == n2
  {
    var s1 := p + n1 + x;
    var s2 := p + n2 + x;
    assert |n1| == |n2|;
    assert n1 == s1[|p|..|p| + |n1|];
    assert n2 == s2[|p|..|p| + |n2|];
  }

  /** Which branch a result came from: equal suggestion lists come from the
      same branch, whatever the patients. */
  lemma ResultDeterminesBranch(m1: string, p1: PatientData, m2: string, p2: PatientData)
    requires GenerateQuickReplySuggestions(m1, p1).Replies?
    requires GenerateQuickReplySuggestions(m1, p1) == GenerateQuickReplySuggestions(m2, p2)
    ensures Classify(m1) == Classify(m2)
  {
    var n1 := if p1.Record? then p1.name else "";
    var n2 := if p2.Record? then p2.name else "";
    var items := GenerateQuickReplySuggestions(m1, p1).items;
    assert items == ListFor(Classify(m1), n1);
    assert items == ListFor(Classify(m2), n2);
    BranchFromList(Classify(m1), n1, Classify(m2), n2);
  }

  /** The list a branch offers, for a patient of the given name. */
  function ListFor(b: Branch, name: string): seq<string> {
    match b
    case Mutation => MutationReplies(name)
    case Gene => GeneReplies(name)
    case Default => DefaultReplies
  }

  lemma BranchFromList(b1: Branch, n1: string, b2: Branch, n2: string)
    requires ListFor(b1, n1) == ListFor(b2, n2)
    ensures b1 == b2
  {
    ListsDistinct(n1, n2);
    ListsDistinct(n2, n1);
  }

  /** The default list reads nothing of the patient record, not even whether
      it exists. */
  lemma DefaultIgnoresPatient(message: string, p1: PatientData, p2: PatientData)
    requires Classify(message) == Default
    ensures GenerateQuickReplySuggestions(message, p1) == GenerateQuickReplySuggestions(message, p2)
    ensures GenerateQuickReplySuggestions(message, p1).Replies?
  {
  }

  // ---------------------------------------------------------------------
  // Worked cases

  /** A keyword with a letter the message lacks in both cases is not found. */
  lemma LacksLetter(m: string, c: char, keyword: string, j: nat)
    requires 'a' <= c <= 'z' && c !in m && Canonicalize(c) !in m
    requires j < |keyword| && keyword[j] == c
    ensures !Includes(ToLowerCase(m), keyword)
  {
    LowerCaseAbsent(m, c);
    AbsentCharNotIncluded(ToLowerCase(m), keyword, j);
  }

  lemma MutationQuestionBranch(m: string)
    requires m == "Tell me about this mutation"
    ensures Classify(m) == Mutation
  {
    KeywordIgnoresCase(m, "mutation", 19);
  }

  /** A message that names a mutation gets the mutation list, personalized. */
  lemma MutationQuestion(m: string, p: PatientData)
    requires m == "Tell me about this mutation" && p == Record("Alex")
    ensures GenerateQuickReplySuggestions(m, p) == Replies(MutationReplies("Alex"))
    ensures GenerateQuickReplySuggestions(m, p).items[5] == "Can you show how this mutation relates to Alex's health history?"
  {
    MutationQuestionBranch(m);
  }

  /** A message without the letter m cannot name a mutation keyword, so one
      holding "gene" selects the gene list. */
  lemma GeneWithoutLetterM(m: string, i: nat)
    requires 'm' !in m && 'M' !in m
    requires i + 4 <= |m| && m[i..i + 4] == "gene"
    ensures Classify(m) == Gene
  {
    LacksLetter(m, 'm', "mutation", 0);
    LacksLetter(m, 'm', "genomic", 4);
    forall j | 0 <= j < 4 ensures LowerChar(m[i + j]) == "gene"[j] {
      assert m[i + j] == m[i..i + 4][j];
    }
    KeywordIgnoresCase(m, "gene", i);
  }

  lemma GeneticGeneralFacts(a: string, b: string)
    requires a == "genetic" && b == "general"
    ensures 'm' !in a && 'M' !in a && 4 <= |a| && a[0..4] == "gene"
    ensures 'm' !in b && 'M' !in b && 4 <= |b| && b[0..4] == "gene"
  {
    assert forall k :: 0 <= k < |a| ==> a[k] != 'm' && a[k] != 'M';
    assert forall k :: 0 <= k < |b| ==> b[k] != 'm' && b[k] != 'M';
  }

  /** "genetic" and "general" on their own select the gene list: each starts
      with "gene" and holds no mutation keyword. */
  lemma GeneticAndGeneralSelectGene(a: string, b: string)
    requires a == "genetic" && b == "general"
    ensures Classify(a) == Gene && Classify(b) == Gene
  {
    GeneticGeneralFacts(a, b);
    GeneWithoutLetterM(a, 0);
    GeneWithoutLetterM(b, 0);
  }

  lemma GeneQuestionFacts(m: string)
    requires m == "What does this gene do?"
    ensures 'm' !in m && 'M' !in m && 19 <= |m| && m[15..19] == "gene"
  {
    assert forall k :: 0 <= k < |m| ==> m[k] != 'm' && m[k] != 'M';
  }

  lemma GeneQuestionBranch(m: string)
    requires m == "What does this gene do?"
    ensures Classify(m) == Gene
  {
    GeneQuestionFacts(m);
    GeneWithoutLetterM(m, 15);
  }

  /** A question about a gene, without a mutation keyword, gets the gene
      list; without a patient record it throws. */
  lemma GeneQuestion(m: string, p: PatientData)
    requires m == "What does this gene do?" && p == Record("Alex")
    ensures GenerateQuickReplySuggestions(m, p) == Replies(GeneReplies("Alex"))
    ensures GenerateQuickReplySuggestions(m, Absent) == TypeError
  {
    GeneQuestionBranch(m);
  }

  lemma GreetingBranch(m: string)
    requires m == "hello"
    ensures Classify(m) == Default
  {
    assert 'm' !in m && 'M' !in m && 'g' !in m && 'G' !in m && 'x' !in m && 'X' !in m;
    LacksLetter(m, 'm', "mutation", 0);
    LacksLetter(m, 'g', "genomic", 0);
    LacksLetter(m, 'g', "gene", 0);
    LacksLetter(m, 'x', "expression", 1);
  }

  /** A greeting mentions no keyword and gets the default list, whatever the
      patient record. */
  lemma Greeting(m: string, p: PatientData)
    requires m == "hello"
    ensures GenerateQuickReplySuggestions(m, p) == Replies(DefaultReplies)
  {
    GreetingBranch(m);
  }
}
