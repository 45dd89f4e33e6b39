/**
 * The teacher's poll form: the question, the editable options with their
 * "correct" flags, the timer, and the check `handleCreatePoll` makes before
 * it emits `create_poll`.
 */
module TeacherForm {
  import Schema

  /**
   * The characters `String.prototype.trim` removes: the ECMAScript
   * WhiteSpace and LineTerminator code points.
   */
  predicate IsJsWhitespace(c: char) {
    var n := c as int;
    || 0x09 <= n <= 0x0D   // tab, line feed, vertical tab, form feed, carriage return
    || n == 0x20 || n == 0xA0 || n == 0x1680
    || 0x2000 <= n <= 0x200A
    || n == 0x2028 || n == 0x2029   // line and paragraph separators
    || n == 0x202F || n == 0x205F || n == 0x3000
    || n == 0xFEFF
  }

  /** `s` without its leading whitespace. */
  function TrimStart(s: string): (r: string)
    ensures |r| <= |s|
  {
    if s != [] && IsJsWhitespace(s[0]) then TrimStart(s[1..]) else s
  }

  /** What trimStart removes is a run of whitespace at the front, and what it keeps does not start with whitespace. */
  lemma {:induction false} TrimStartSpec(s: string)
    ensures var r := TrimStart(s);
      && r == s[|s| - |r|..]
      && (forall i :: 0 <= i < |s| - |r| ==> IsJsWhitespace(s[i]))
      && (r != [] ==> !IsJsWhitespace(r[0]))
  {
    if s != [] && IsJsWhitespace(s[0]) {
      TrimStartSpec(s[1..]);
      var r := TrimStart(s);
      forall i | 1 <= i < |s| - |r| ensures IsJsWhitespace(s[i]) {
        assert s[i] == s[1..][i - 1];
      }
    }
  }

  /** `s` without its trailing whitespace. */
  function TrimEnd(s: string): (r: string)
    ensures |r| <= |s|
  {
    if s != [] && IsJsWhitespace(s[|s| - 1]) then TrimEnd(s[..|s| - 1]) else s
  }

  /** What trimEnd removes is a run of whitespace at the back, and what it keeps does not end with whitespace. */
  lemma {:induction false} TrimEndSpec(s: string)
    ensures var r := TrimEnd(s);
      && r == s[..|r|]
      && (forall i :: |r| <= i < |s| ==> IsJsWhitespace(s[i]))
      && (r != [] ==> !IsJsWhitespace(r[|r| - 1]))
  {
    if s != [] && IsJsWhitespace(s[|s| - 1]) {
      TrimEndSpec(s[..|s| - 1]);
    }
  }

  /** `s.trim()` */
  function Trim(s: string): (r: string)
    ensures |r| <= |s|
  {
    TrimEnd(TrimStart(s))
  }

  /** A text trims to the empty string exactly when every character of it is whitespace. */
  lemma TrimEmptyIffBlank(s: string)
    ensures Trim(s) == "" <==> forall i :: 0 <= i < |s| ==> IsJsWhitespace(s[i])
  {
    var t := TrimStart(s);
    TrimStartSpec(s);
    TrimEndSpec(t);
    if Trim(s) == "" {
      assert t == [];
    } else {
      var r := Trim(s);
      assert r[0] == t[0];
      assert t[0] == s[|s| - |t|];
    }
  }

  /** The trimmed text is a piece of the text that neither starts nor ends with whitespace. */
  lemma TrimIsInnerPiece(s: string)
    ensures exists a, b :: 0 <= a <= b <= |s| && Trim(s) == s[a..b]
    ensures Trim(s) != "" ==> !IsJsWhitespace(Trim(s)[0]) && !IsJsWhitespace(Trim(s)[|Trim(s)| - 1])
  {
    var t := TrimStart(s);
    TrimStartSpec(s);
    TrimEndSpec(t);
    var r := Trim(s);
    var a := |s| - |t|;
    assert r == s[a..a + |r|];
    if r != "" {
      assert r[0] == t[0];
    }
  }

  /** Trimming twice is trimming once. */
  lemma TrimIdempotent(s: string)
    ensures Trim(Trim(s)) == Trim(s)
  {
    TrimIsInnerPiece(s);
    var r := Trim(s);
    if r != "" {
      assert TrimStart(r) == r;
      assert TrimEnd(r) == r;
    }
  }

  datatype FormOption = FormOption(text: string, isCorrect: bool)

  /** A fresh option: empty text, not correct. */
  const EmptyOption: FormOption := FormOption("", false)

  /** The filter's test: the trimmed text is non-empty. */
  predicate IsValid(o: FormOption) {
    Trim(o.text) != ""
  }

  /** An option is valid exactly when its text has a character that is not whitespace. */
  lemma IsValidIffNonBlank(o: FormOption)
    ensures IsValid(o) <==> exists i :: 0 <= i < |o.text| && !IsJsWhitespace(o.text[i])
  {
    TrimEmptyIffBlank(o.text);
  }

  /** `options.filter(opt => opt.text.trim() !== "")` */
  function ValidOptions(options: seq<FormOption>): (r: seq<FormOption>)
    ensures |r| <= |options|
  {
    if options == [] then []
    else
      var last := options[|options| - 1];
      ValidOptions(options[..|options| - 1]) + (if IsValid(last) then [last] else [])
  }

  /** The filter keeps exactly the options whose trimmed text is non-empty. */
  lemma {:induction false} ValidOptionsMembers(options: seq<FormOption>, o: FormOption)
    ensures o in ValidOptions(options) <==> o in options && IsValid(o)
  {
    if options != [] {
      var init := options[..|options| - 1];
      ValidOptionsMembers(init, o);
      assert options == init + [options[|options| - 1]];
    }
  }

  /** The filter keeps the original order: it distributes over concatenation. */
  lemma {:induction false} ValidOptionsAppend(a: seq<FormOption>, b: seq<FormOption>)
    ensures ValidOptions(a + b) == ValidOptions(a) + ValidOptions(b)
  {
    if b != [] {
      var init := b[..|b| - 1];
      ValidOptionsAppend(a, init);
      assert (a + b)[..|a + b| - 1] == a + init;
    } else {
      assert a + b == a;
    }
  }

  /** An option on its own survives the filter exactly when its trimmed text is non-empty. */
  lemma ValidOptionsSingle(o: FormOption)
    ensures ValidOptions([o]) == (if IsValid(o) then [o] else [])
  {
    assert [o][..0] == [];
  }

  /** `validOptions.map(o => o.text)`: the texts, in order, without the flags. */
  function Texts(options: seq<FormOption>): (r: seq<string>)
    ensures |r| == |options|
    ensures forall i :: 0 <= i < |options| ==> r[i] == options[i].text
  {
    seq(|options|, i requires 0 <= i < |options| => options[i].text)
  }

  /** A text is submitted exactly when some option carries it and trims to something non-empty. */
  lemma SubmittedTextsMembers(options: seq<FormOption>, t: string)
    ensures t in Texts(ValidOptions(options)) <==> exists o :: o in options && IsValid(o) && o.text == t
  {
    var valid := ValidOptions(options);
    if t in Texts(valid) {
      var i :| 0 <= i < |valid| && Texts(valid)[i] == t;
      ValidOptionsMembers(options, valid[i]);
    }
    if exists o :: o in options && IsValid(o) && o.text == t {
      var o :| o in options && IsValid(o) && o.text == t;
      ValidOptionsMembers(options, o);
      var i :| 0 <= i < |valid| && valid[i] == o;
      assert Texts(valid)[i] == t;
    }
  }

  /** The submitted texts keep the form's order: filtering then mapping distributes over concatenation. */
  lemma SubmittedTextsAppend(a: seq<FormOption>, b: seq<FormOption>)
    ensures Texts(ValidOptions(a + b)) == Texts(ValidOptions(a)) + Texts(ValidOptions(b))
  {
    ValidOptionsAppend(a, b);
  }

  /** The payload of `create_poll`. */
  datatype CreatePollRequest = CreatePollRequest(question: string, options: seq<string>, timer: int, roomId: string)

  /** Whether `handleCreatePoll` emits: a non-empty question and at least two valid options. */
  predicate Submittable(question: string, options: seq<FormOption>) {
    question != "" && |ValidOptions(options)| >= 2
  }

  /** Some option of the list is valid exactly when the filter keeps at least one. */
  lemma SomeValid(options: seq<FormOption>)
    ensures |ValidOptions(options)| >= 1 <==> exists i :: 0 <= i < |options| && IsValid(options[i])
  {
    if |ValidOptions(options)| >= 1 {
      SomeValidFound(options);
    }
    if exists i :: 0 <= i < |options| && IsValid(options[i]) {
      var i :| 0 <= i < |options| && IsValid(options[i]);
      SomeValidKept(options, i);
    }
  }

  /** When the filter keeps an option, some option of the list is valid. */
  lemma {:induction false} SomeValidFound(options: seq<FormOption>)
    requires |ValidOptions(options)| >= 1
    ensures exists i :: 0 <= i < |options| && IsValid(options[i])
  {
    var init := options[..|options| - 1];
    var last := options[|options| - 1];
    if !IsValid(last) {
      assert ValidOptions(options) == ValidOptions(init);
      SomeValidFound(init);
      var i :| 0 <= i < |init| && IsValid(init[i]);
      assert options[i] == init[i];
    }
  }

  /** A valid option is kept by the filter. */
  lemma {:induction false} SomeValidKept(options: seq<FormOption>, i: nat)
    requires i < |options| && IsValid(options[i])
    ensures |ValidOptions(options)| >= 1
  {
    var init := options[..|options| - 1];
    if i < |init| {
      assert init[i] == options[i];
      SomeValidKept(init, i);
    }
  }

  /**
   * The form can be submitted exactly when the question is non-empty and
   * two different options of the form are valid.
   */
  lemma {:induction false} SubmittableIffTwoValid(question: string, options: seq<FormOption>)
    ensures Submittable(question, options) <==>
      question != "" && exists i, j :: 0 <= i < j < |options| && IsValid(options[i]) && IsValid(options[j])
  {
    TwoValid(options);
  }

  /** The filter keeps two options exactly when two different options are valid. */
  lemma TwoValid(options: seq<FormOption>)
    ensures |ValidOptions(options)| >= 2 <==>
      exists i, j :: 0 <= i < j < |options| && IsValid(options[i]) && IsValid(options[j])
  {
    if |ValidOptions(options)| >= 2 {
      TwoValidFound(options);
    }
    if exists i, j :: 0 <= i < j < |options| && IsValid(options[i]) && IsValid(options[j]) {
      var i, j :| 0 <= i < j < |options| && IsValid(options[i]) && IsValid(options[j]);
      TwoValidKept(options, i, j);
    }
  }

  /** When the filter keeps two options, two different options of the list are valid. */
  lemma {:induction false} TwoValidFound(options: seq<FormOption>)
    requires |ValidOptions(options)| >= 2
    ensures exists i, j :: 0 <= i < j < |options| && IsValid(options[i]) && IsValid(options[j])
  {
    var init := options[..|options| - 1];
    var last := options[|options| - 1];
    assert |ValidOptions(options)| == |ValidOptions(init)| + (if IsValid(last) then 1 else 0);
    if |ValidOptions(init)| >= 2 {
      TwoValidFound(init);
      var i, j :| 0 <= i < j < |init| && IsValid(init[i]) && IsValid(init[j]);
      assert options[i] == init[i] && options[j] == init[j];
    } else {
      SomeValid(init);
      var i :| 0 <= i < |init| && IsValid(init[i]);
      assert options[i] == init[i];
      assert IsValid(options[i]) && IsValid(options[|options| - 1]);
    }
  }

  /** Two valid options at `i < j` are both kept by the filter. */
  lemma {:induction false} TwoValidKept(options: seq<FormOption>, i: nat, j: nat)
    requires i < j < |options| && IsValid(options[i]) && IsValid(options[j])
    ensures |ValidOptions(options)| >= 2
  {
    var init := options[..|options| - 1];
    var last := options[|options| - 1];
    assert |ValidOptions(options)| == |ValidOptions(init)| + (if IsValid(last) then 1 else 0);
    assert init[i] == options[i];
    if j < |init| {
      assert init[j] == options[j];
      TwoValidKept(init, i, j);
    } else {
      SomeValid(init);
    }
  }

  /** Only the options are trimmed: a question made of spaces passes the check. */
  lemma BlankQuestionSubmittable(options: seq<FormOption>)
    requires |ValidOptions(options)| >= 2
    ensures Submittable(" ", options)
    ensures Trim(" ") == ""
  {
    assert " "[1..] == "";
  }

  /** The state of the teacher screen's form. */
  class Form {
    const roomId: string
    var question: string
    var options: seq<FormOption>
    var timer: int
    var isPollActive: bool
    var liveResults: seq<Schema.ResultRow>
    /** The `create_poll` payloads emitted so far, in order. */
    var sent: seq<CreatePollRequest>

    /** An empty question, two empty options, 60 seconds, no poll running. */
    constructor (room: string)
      ensures roomId == room
      ensures question == "" && options == [EmptyOption, EmptyOption] && timer == 60
      ensures !isPollActive && liveResults == [] && sent == []
    {
      roomId := room;
      question := "";
      options := [EmptyOption, EmptyOption];
      timer := 60;
      isPollActive := false;
      liveResults := [];
      sent := [];
    }

    /** The question textarea's change handler. */
    method SetQuestion(q: string)
      modifies this
      ensures question == q
      ensures options == old(options) && timer == old(timer) && isPollActive == old(isPollActive)
      ensures liveResults == old(liveResults) && sent == old(sent)
    {
      question := q;
    }

    /** The timer dropdown's change handler. */
    method SetTimer(t: int)
      modifies this
      ensures timer == t
      ensures question == old(question) && options == old(options) && isPollActive == old(isPollActive)
      ensures liveResults == old(liveResults) && sent == old(sent)
    {
      timer := t;
    }

    /** handleAddOption: one empty, not-correct option more at the end. */
    method AddOption()
      modifies this
      ensures |options| == |old(options)| + 1
      ensures options[..|old(options)|] == old(options) && options[|old(options)|] == EmptyOption
      ensures question == old(question) && timer == old(timer) && isPollActive == old(isPollActive)
      ensures liveResults == old(liveResults) && sent == old(sent)
    {
      options := options + [EmptyOption];
    }

    /** handleOptionTextChange: only option `index`'s text changes. */
    method OptionTextChange(index: nat, val: string)
      requires index < |options|
      modifies this
      ensures |options| == |old(options)|
      ensures options[index] == old(options)[index].(text := val)
      ensures forall i :: 0 <= i < |options| && i != index ==> options[i] == old(options)[i]
      ensures question == old(question) && timer == old(timer) && isPollActive == old(isPollActive)
      ensures liveResults == old(liveResults) && sent == old(sent)
    {
      options := options[index := options[index].(text := val)];
    }

    /** handleCorrectSelect: only option `index`'s flag changes; other flags are kept. */
    method CorrectSelect(index: nat, isCorrect: bool)
      requires index < |options|
      modifies this
      ensures |options| == |old(options)|
      ensures options[index] == old(options)[index].(isCorrect := isCorrect)
      ensures forall i :: 0 <= i < |options| && i != index ==> options[i] == old(options)[i]
      ensures question == old(question) && timer == old(timer) && isPollActive == old(isPollActive)
      ensures liveResults == old(liveResults) && sent == old(sent)
    {
      options := options[index := options[index].(isCorrect := isCorrect)];
    }

    /**
     * handleCreatePoll: with an empty question or fewer than two valid
     * options nothing is emitted and nothing changes; otherwise the
     * question, the valid options' texts in order, the timer and the room go
     * out, the poll counts as active and the results are cleared.
     */
    method CreatePoll() returns (emitted: bool)
      modifies this
      ensures emitted <==> Submittable(old(question), old(options))
      ensures emitted ==>
        sent == old(sent) + [CreatePollRequest(question, Texts(ValidOptions(options)), timer, roomId)] &&
        isPollActive && liveResults == []
      ensures !emitted ==> sent == old(sent) && isPollActive == old(isPollActive) && liveResults == old(liveResults)
      ensures question == old(question) && options == old(options) && timer == old(timer)
    {
      var valid := ValidOptions(options);
      if question == "" || |valid| < 2 {
        return false;
      }
      sent := sent + [CreatePollRequest(question, Texts(valid), timer, roomId)];
      isPollActive := true;
      liveResults := [];
      return true;
    }

    /** The `update_results` listener: the live results are replaced. */
    method OnUpdateResults(results: seq<Schema.ResultRow>)
      modifies this
      ensures liveResults == results
      ensures question == old(question) && options == old(options) && timer == old(timer)
      ensures isPollActive == old(isPollActive) && sent == old(sent)
    {
      liveResults := results;
    }

    /** The `poll_ended` listener: the poll no longer counts as active. */
    method OnPollEnded()
      modifies this
      ensures !isPollActive
      ensures question == old(question) && options == old(options) && timer == old(timer)
      ensures liveResults == old(liveResults) && sent == old(sent)
    {
      isPollActive := false;
    }
  }

  /** A blank third option is filtered out; the two filled ones stay, in order. */
  lemma BlankThirdOptionFiltered(a: FormOption, b: FormOption, blank: FormOption)
    requires IsValid(a) && IsValid(b) && !IsValid(blank)
    ensures ValidOptions([a, b, blank]) == [a, b]
  {
    assert [a, b, blank][..2] == [a, b] && [a, b][..1] == [a] && [a][..0] == [];
    assert ValidOptions([a]) == [a];
    assert ValidOptions([a, b]) == [a, b];
  }

  /**
   * A form whose added third option was left blank still submits the two
   * filled ones, in order, without their flags, and with the default timer.
   */
  method BlankOptionIsDropped(room: string, question: string, first: string, second: string, blank: string)
    returns (req: CreatePollRequest)
    requires question != "" && Trim(first) != "" && Trim(second) != "" && Trim(blank) == ""
    ensures req == CreatePollRequest(question, [first, second], 60, room)
  {
    var f := new Form(room);
    f.SetQuestion(question);
    f.OptionTextChange(0, first);
    f.OptionTextChange(1, second);
    f.CorrectSelect(0, true);
    f.AddOption();
    f.OptionTextChange(2, blank);
    var a, b, c := FormOption(first, true), FormOption(second, false), FormOption(blank, false);
    assert f.options == [a, b, c];
    BlankThirdOptionFiltered(a, b, c);
    var ok := f.CreatePoll();
    req := f.sent[|f.sent| - 1];
    assert Texts([a, b]) == [first, second];
  }
}
