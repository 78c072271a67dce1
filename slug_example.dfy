/**
 * The slug of the title "Hello, World! 2024", worked out stage by stage.
 * Each stage is evaluated on pieces of a few characters, and the pieces are
 * joined by the distribution lemmas of the Slug module.
 */
module SlugExample {
  import opened Text
  import opened Slug

  lemma ExampleLowered()
    ensures LowerText("Hello, World! 2024") == "hello, world! 2024"
  {
  }

  lemma ExampleTrimmed()
    ensures Trim("hello, world! 2024") == "hello, world! 2024"
  {
    TrimUnchanged("hello, world! 2024");
  }

  /** `,` and `!` are dropped; letters, digits and spaces stay. */
  lemma ExampleStripped()
    ensures Strip("hello, world! 2024") == "hello world 2024"
  {
    StrippedJoin();
    StripAppend("hello,", " world" + "! 2024");
    StripAppend(" world", "! 2024");
    StrippedHello();
    StrippedWorld();
    StrippedYear();
  }

  lemma StrippedJoin()
    ensures "hello, world! 2024" == "hello," + (" world" + "! 2024")
    ensures "hello" + (" world" + " 2024") == "hello world 2024"
  {
  }

  lemma StrippedHello() ensures Strip("hello,") == "hello" {}
  lemma StrippedWorld() ensures Strip(" world") == " world" {}
  lemma StrippedYear() ensures Strip("! 2024") == " 2024" {}

  /** Each space becomes a hyphen. */
  lemma ExampleHyphenated()
    ensures ReplaceRuns("hello world 2024", IsSpace, false) == "hello-world-2024"
  {
    HyphenatedJoin();
    ReplaceRunsAppend("hello", " world" + " 2024", IsSpace, false);
    ReplaceRunsAppend(" world", " 2024", IsSpace, false);
    HyphenatedHello();
    HyphenatedWorld();
    HyphenatedYear();
  }

  lemma HyphenatedJoin()
    ensures "hello world 2024" == "hello" + (" world" + " 2024")
    ensures "hello" + ("-world" + "-2024") == "hello-world-2024"
  {
  }

  lemma HyphenatedHello() ensures ReplaceRuns("hello", IsSpace, false) == "hello" {}
  lemma HyphenatedWorld() ensures ReplaceRuns(" world", IsSpace, false) == "-world" {}
  lemma HyphenatedYear() ensures ReplaceRuns(" 2024", IsSpace, false) == "-2024" {}

  /** No hyphen run is longer than one, so squashing changes nothing. */
  lemma ExampleSquashed()
    ensures ReplaceRuns("hello-world-2024", IsHyphen, false) == "hello-world-2024"
  {
    HyphenatedJoin();
    ReplaceRunsAppend("hello", "-world" + "-2024", IsHyphen, false);
    ReplaceRunsAppend("-world", "-2024", IsHyphen, false);
    SquashedHello();
    SquashedWorld();
    SquashedYear();
  }

  lemma SquashedHello() ensures ReplaceRuns("hello", IsHyphen, false) == "hello" {}
  lemma SquashedWorld() ensures ReplaceRuns("-world", IsHyphen, false) == "-world" {}
  lemma SquashedYear() ensures ReplaceRuns("-2024", IsHyphen, false) == "-2024" {}

  /** The title "Hello, World! 2024" yields the slug "hello-world-2024". */
  lemma SlugExample()
    ensures GenerateSlug("Hello, World! 2024") == "hello-world-2024"
  {
    ExampleLowered();
    ExampleTrimmed();
    ExampleStripped();
    ExampleHyphenated();
    ExampleSquashed();
  }
}
