/** The decision chain of `main`: after editing, what is asked, whether the
    code is shown, and whether (and where, and in which colours) an image
    is saved. The prompts are given as answer strings and the file system
    as the set of paths that already exist. */
module Session {
  import opened Text

  /** The `input()` prompts of a run, in the order they can appear. */
  datatype Prompt = DisplayPrompt | SavePrompt | FormatPrompt | FillPrompt | BackPrompt | NamePrompt | OverwritePrompt

  const AllPrompts: seq<Prompt> :=
    [DisplayPrompt, SavePrompt, FormatPrompt, FillPrompt, BackPrompt, NamePrompt, OverwritePrompt]

  /** What the user would type at each prompt; a prompt that is not shown
      leaves its answer unread. */
  datatype Answers = Answers(
    display: string, save: string, format: string,
    fill: string, back: string, name: string, overwrite: string)

  /** The answers as `main` reads them: the yes/no answers and the format
      stripped and lower-cased, the colours and the base name only stripped. */
  datatype Replies = Replies(
    display: string, save: string, format: string,
    fill: string, back: string, name: string, overwrite: string)

  /** How the run ends. */
  datatype End =
    | EmptyText        // the stripped text is empty: error, nothing asked
    | NotSaved         // the user declined to save
    | InvalidFormat    // the format is neither png nor jpg: error
    | Cancelled        // the file exists and overwriting was declined
    | Saved(path: string, fill: string, back: string)  // `create_qr_code` is called

  /** The prompts shown, the text handed to the QR collaborators, whether the
      terminal rendering is shown, and how the run ends. */
  datatype Outcome = Outcome(asked: seq<Prompt>, text: string, shown: bool, end: End)

  /** A yes/no answer reads as yes exactly when, stripped, it is "y" or "Y". */
  function Read(a: Answers): (r: Replies)
    ensures r.display == "y" <==> Strip(a.display) == "y" || Strip(a.display) == "Y"
    ensures r.save == "y" <==> Strip(a.save) == "y" || Strip(a.save) == "Y"
    ensures r.overwrite == "y" <==> Strip(a.overwrite) == "y" || Strip(a.overwrite) == "Y"
  {
    Replies(Normalize(a.display), Normalize(a.save), Normalize(a.format),
            Strip(a.fill), Strip(a.back), Strip(a.name), Normalize(a.overwrite))
  }

  predicate IsFormat(f: string) { f == "png" || f == "jpg" }

  /** The branches of `main` on the stripped text and the read replies. */
  function Decide(text: string, r: Replies, existing: set<string>): (o: Outcome)
    ensures o.text == text
    ensures o.shown <==> text != [] && r.display == "y"
    ensures o.end.Saved? ==> o.end.path == r.name + "." + r.format
  {
    if text == [] then Outcome([], text, false, EmptyText)
    else
      var shown := r.display == "y";
      if r.save != "y" then Outcome([DisplayPrompt, SavePrompt], text, shown, NotSaved)
      else if !IsFormat(r.format) then Outcome([DisplayPrompt, SavePrompt, FormatPrompt], text, shown, InvalidFormat)
      else
        var fill := if r.fill == [] then "black" else r.fill;
        var back := if r.back == [] then "white" else r.back;
        var path := r.name + "." + r.format;
        var asked := [DisplayPrompt, SavePrompt, FormatPrompt, FillPrompt, BackPrompt, NamePrompt];
        if path !in existing then Outcome(asked, text, shown, Saved(path, fill, back))
        else if r.overwrite != "y" then Outcome(asked + [OverwritePrompt], text, shown, Cancelled)
        else Outcome(asked + [OverwritePrompt], text, shown, Saved(path, fill, back))
  }

  /** One run of `main` after `curses_input` has returned `edited`. */
  function Run(edited: string, a: Answers, existing: set<string>): (o: Outcome)
    ensures o.text == Strip(edited)
    ensures o.end.Saved? ==> o.end.path == Strip(a.name) + "." + Normalize(a.format)
  {
    Decide(Strip(edited), Read(a), existing)
  }

  /** The prompts of a run are always a prefix of the fixed prompt order. */
  lemma PromptsInOrder(text: string, r: Replies, existing: set<string>)
    ensures var o := Decide(text, r, existing);
      |o.asked| <= |AllPrompts| && o.asked == AllPrompts[..|o.asked|]
  {
  }

  /** Empty text, and only empty text, ends the run before any prompt. */
  lemma EmptyTextAbortsFirst(text: string, r: Replies, existing: set<string>)
    ensures var o := Decide(text, r, existing);
      && (o.end == EmptyText <==> text == [])
      && (o.end == EmptyText ==> o.asked == [] && !o.shown)
  {
  }

  /** Blank text (all whitespace, so empty after strip) ends the run before
      any prompt, and only blank text ends it that way. */
  lemma BlankTextAbortsFirst(edited: string, a: Answers, existing: set<string>)
    ensures var o := Run(edited, a, existing);
      && (o.end == EmptyText <==> forall k :: 0 <= k < |edited| ==> IsSpace(edited[k]))
      && (o.end == EmptyText ==> o.asked == [] && !o.shown)
  {
    StripBlank(edited);
    EmptyTextAbortsFirst(Strip(edited), Read(a), existing);
  }

  /** The code is shown in the terminal exactly when the text is not blank
      and the display answer is "y" or "Y" once stripped. */
  lemma ShownOnlyOnYes(edited: string, a: Answers, existing: set<string>)
    ensures Run(edited, a, existing).shown <==>
      Strip(edited) != [] && (Strip(a.display) == "y" || Strip(a.display) == "Y")
  {
  }

  /** A format other than "png" and "jpg" ends the run with an error, before
      the colour and file-name prompts. */
  lemma InvalidFormatAbortsBeforeColours(text: string, r: Replies, existing: set<string>)
    ensures var o := Decide(text, r, existing);
      && (o.end == InvalidFormat <==> text != [] && r.save == "y" && !IsFormat(r.format))
      && (o.end == InvalidFormat ==>
            FillPrompt !in o.asked && BackPrompt !in o.asked && NamePrompt !in o.asked)
  {
  }

  /** What a save writes: the text, to the base name plus "." plus the
      accepted format, with the given colours or "black" and "white" in
      place of blank ones. */
  lemma SavedRequest(text: string, r: Replies, existing: set<string>)
    ensures var o := Decide(text, r, existing);
      o.end.Saved? ==>
        && o.text == text != []
        && r.save == "y"
        && IsFormat(r.format)
        && o.end.path == r.name + "." + r.format
        && o.end.fill == (if r.fill == [] then "black" else r.fill)
        && o.end.back == (if r.back == [] then "white" else r.back)
  {
  }

  /** Every saved path ends in ".png" or ".jpg". */
  lemma SavedPathExtension(text: string, r: Replies, existing: set<string>)
    ensures var o := Decide(text, r, existing);
      o.end.Saved? ==>
        |o.end.path| >= 4 && o.end.path[|o.end.path| - 4..] in {".png", ".jpg"}
  {
    var o := Decide(text, r, existing);
    if o.end.Saved? {
      assert o.end.path[|o.end.path| - 4..] == "." + r.format;
      assert "." + "png" == ".png" && "." + "jpg" == ".jpg";
    }
  }

  /** An existing file is written over exactly when the overwrite prompt was
      answered "y"; any other answer cancels the run. */
  lemma ExistingFileNeedsConfirmation(text: string, r: Replies, existing: set<string>)
    ensures var o := Decide(text, r, existing);
      && (o.end.Saved? && o.end.path in existing ==> OverwritePrompt in o.asked && r.overwrite == "y")
      && (o.end == Cancelled <==>
            text != [] && r.save == "y" && IsFormat(r.format)
            && r.name + "." + r.format in existing && r.overwrite != "y")
      && ((text != [] && r.save == "y" && IsFormat(r.format)
             && r.name + "." + r.format in existing && r.overwrite == "y")
            ==> o.end.Saved? && OverwritePrompt in o.asked)
  {
  }

  /** A path that does not exist yet is written without the overwrite prompt. */
  lemma NewFileWrittenDirectly(text: string, r: Replies, existing: set<string>)
    requires text != [] && r.save == "y" && IsFormat(r.format)
    requires r.name + "." + r.format !in existing
    ensures var o := Decide(text, r, existing);
      o.end.Saved? && OverwritePrompt !in o.asked
  {
  }
}
