/** Tagging a recording from its file name (src/data/make_dataset.py, lines 22-24).
    The name is split on "-": participant is field 0 with the path characters stripped
    from its front, label is field 1, category is field 2 with trailing digits and then
    trailing device-suffix characters stripped. */
module FileNames {
  import opened Results
  import opened PyStr

  /** The characters of `'../../MetaMotion\` that `lstrip` removes from the front of field 0. */
  const PathChars: set<char> := {'\'', '.', '/', 'M', 'e', 't', 'a', 'o', 'i', 'n', '\\'}

  /** The characters of "123" that the first `rstrip` removes from the end of field 2. */
  const Digits: set<char> := {'1', '2', '3'}

  /** The characters of "_MetaWear_2019" that the second `rstrip` removes. */
  const DeviceChars: set<char> := {'_', 'M', 'e', 't', 'a', 'W', 'r', '2', '0', '1', '9'}

  /** The metadata every row of one file is tagged with (`exercise` is the "label" column). */
  datatype Tag = Tag(participant: string, exercise: string, category: string)

  function ParticipantOf(field: string): (p: string)
    ensures |p| <= |field| && p == field[|field| - |p|..]
    ensures p == [] || p[0] !in PathChars
    ensures forall i :: 0 <= i < |field| - |p| ==> field[i] in PathChars
  {
    LStrip(field, PathChars)
  }

  function CategoryOf(field: string): (c: string)
    ensures |c| <= |field| && c == field[..|c|]
    ensures c == [] || c[|c| - 1] !in DeviceChars
    ensures forall i :: |c| <= i < |field| ==> field[i] in Digits + DeviceChars
  {
    RStrip(RStrip(field, Digits), DeviceChars)
  }

  /** The tag of file `name`, or the IndexError raised when the name has fewer than three
      "-"-separated fields. */
  function ParseTag(name: string): (r: Result<Tag>)
    ensures r.Success? <==> |Split(name, '-')| >= 3
    ensures r.Failure? ==> r.error == MalformedName(name)
  {
    var fields := Split(name, '-');
    if |fields| < 3 then Failure(MalformedName(name))
    else Success(Tag(ParticipantOf(fields[0]), fields[1], CategoryOf(fields[2])))
  }

  /** A name is rejected exactly when it has fewer than two "-" characters, with the error
      naming it; otherwise the tag comes from its first three fields. */
  lemma ParseTagSpec(name: string)
    ensures ParseTag(name).Failure? <==> Occurrences(name, '-') < 2
    ensures ParseTag(name).Failure? ==> ParseTag(name).error == MalformedName(name)
    ensures ParseTag(name).Success? ==>
      var fields := Split(name, '-');
      && ParseTag(name).value.participant == ParticipantOf(fields[0])
      && ParseTag(name).value.exercise == fields[1]
      && ParseTag(name).value.category == CategoryOf(fields[2])
  {
  }

  /** A name with at least three "-"-separated fields splits into them, whatever follows. */
  lemma SplitThree(a: string, b: string, c: string, rest: string)
    requires '-' !in a && '-' !in b && '-' !in c
    requires rest == [] || rest[0] == '-'
    ensures var fields := Split(a + "-" + b + "-" + c + rest, '-');
      |fields| >= 3 && fields[0] == a && fields[1] == b && fields[2] == c
  {
    var t2 := c + rest;
    var s3 := Split(t2, '-');
    FirstField(c, rest);
    var t1 := b + "-" + t2;
    assert Split(a + "-" + b + "-" + c + rest, '-') == [a] + ([b] + s3) by {
      Regroup(a, b, c, rest);
      SplitCons(a, '-', t1);
      SplitCons(b, '-', t2);
    }
    assert ([a] + ([b] + s3))[2] == s3[0];
  }

  /** A field followed by nothing or by a separator is the first field. */
  lemma FirstField(c: string, rest: string)
    requires '-' !in c
    requires rest == [] || rest[0] == '-'
    ensures |Split(c + rest, '-')| >= 1 && Split(c + rest, '-')[0] == c
  {
    if rest == [] {
      assert Split(c + rest, '-') == [c] by {
        assert c + rest == c;
        SplitNoSeparator(c, '-');
      }
    } else {
      assert Split(c + rest, '-') == [c] + Split(rest[1..], '-') by {
        assert c + rest == c + ['-'] + rest[1..];
        SplitCons(c, '-', rest[1..]);
      }
    }
  }

  /** Three fields and a tail, regrouped from the right. */
  lemma Regroup(a: string, b: string, c: string, rest: string)
    ensures a + "-" + b + "-" + c + rest == a + "-" + (b + "-" + (c + rest))
  {
  }

  /** What a well-formed name's tag is made of: the participant comes from the first
      field, the label is the second field, the category comes from the third, whatever
      follows the third field; and re-stripping the participant changes nothing. */
  lemma TagFields(name: string, a: string, b: string, c: string, rest: string)
    requires '-' !in a && '-' !in b && '-' !in c
    requires name == a + "-" + b + "-" + c + rest
    requires rest == [] || rest[0] == '-'
    ensures ParseTag(name) == Success(Tag(ParticipantOf(a), b, CategoryOf(c)))
    ensures LStrip(ParticipantOf(a), PathChars) == ParticipantOf(a)
  {
    SplitThree(a, b, c, rest);
  }

  /** Stripping from the right a tail made only of stripped characters. */
  lemma {:induction false} RStripTail(s: string, t: string, chars: set<char>)
    requires forall i :: 0 <= i < |t| ==> t[i] in chars
    ensures RStrip(s + t, chars) == RStrip(s, chars)
    decreases |t|
  {
    if t != [] {
      assert (s + t)[..|s + t| - 1] == s + t[..|t| - 1];
      RStripTail(s, t[..|t| - 1], chars);
    } else {
      assert s + t == s;
    }
  }

  /** Stripping from the left a head made only of stripped characters. */
  lemma {:induction false} LStripHead(t: string, s: string, chars: set<char>)
    requires forall i :: 0 <= i < |t| ==> t[i] in chars
    ensures LStrip(t + s, chars) == LStrip(s, chars)
    decreases |t|
  {
    if t != [] {
      assert (t + s)[1..] == t[1..] + s;
      LStripHead(t[1..], s, chars);
    } else {
      assert t + s == s;
    }
  }

  /** The category is stable under re-normalisation exactly when it does not end in '3':
      the result never ends in a character of "_MetaWear_2019" (which includes '1' and '2'),
      but a trailing '3' left behind by the second strip is removed by a second first strip. */
  lemma {:induction false} CategoryIdempotentUnlessThree(field: string)
    ensures var c := CategoryOf(field);
      CategoryOf(c) == c <==> (c == [] || c[|c| - 1] != '3')
  {
    var c := CategoryOf(field);
    if c != [] && c[|c| - 1] == '3' {
      assert |RStrip(c, Digits)| < |c|;
      assert |CategoryOf(c)| < |c|;
    } else {
      assert RStrip(c, Digits) == c;
      assert RStrip(c, DeviceChars) == c;
    }
  }

  /** The file-name field "heavy3_MetaWear_2019" keeps its digit, unlike "heavy2_MetaWear_2019"
      and "heavy_MetaWear_2019"; normalising the result again changes it. */
  lemma CategoryKeepsThree()
    ensures CategoryOf("heavy3_MetaWear_2019") == "heavy3"
    ensures CategoryOf("heavy3") == "heavy"
  {
    DigitsKept("heavy3_MetaWear_2019");
    DeviceSuffixStripped("heavy3");
    Heavy3();
  }

  lemma Heavy3()
    ensures "heavy3" + "_MetaWear_2019" == "heavy3_MetaWear_2019"
    ensures RStrip("heavy3", DeviceChars) == "heavy3"
    ensures RStrip("heavy3", Digits) == "heavy"
    ensures RStrip("heavy", DeviceChars) == "heavy"
  {
    assert "heavy3"[5] == '3' && '3' !in DeviceChars;
    LastKept("heavy3", DeviceChars);
    HeavyKept();
    StripOneDigit("heavy", '3');
  }

  /** "heavy" ends in a letter, which neither strip removes. */
  lemma HeavyKept()
    ensures RStrip("heavy", Digits) == "heavy"
    ensures RStrip("heavy", DeviceChars) == "heavy"
  {
    assert "heavy"[4] == 'y' && 'y' !in Digits && 'y' !in DeviceChars;
    LastKept("heavy", Digits);
    LastKept("heavy", DeviceChars);
  }

  /** One trailing digit after "heavy" is stripped. */
  lemma StripOneDigit(s: string, digit: char)
    requires s == "heavy" && digit in Digits
    ensures RStrip(s + [digit], Digits) == "heavy"
  {
    HeavyKept();
    RStripTail(s, [digit], Digits);
  }

  /** A string whose last character is not to be stripped is kept whole. */
  lemma LastKept(s: string, chars: set<char>)
    requires s != [] && s[|s| - 1] !in chars
    ensures RStrip(s, chars) == s
  {
  }

  /** A name field ending in '9' loses nothing to the first strip. */
  lemma DigitsKept(s: string)
    requires s != [] && s[|s| - 1] == '9'
    ensures RStrip(s, Digits) == s
  {
  }

  lemma DeviceSuffixStripped(s: string)
    ensures RStrip(s + "_MetaWear_2019", DeviceChars) == RStrip(s, DeviceChars)
  {
    RStripTail(s, "_MetaWear_2019", DeviceChars);
  }

  /** Example categories as the repository's recordings name them. */
  lemma CategoryExamples()
    ensures CategoryOf("heavy2") == "heavy"
    ensures CategoryOf("medium_MetaWear_2019") == "medium"
  {
    Heavy2();
    DigitsKept("medium_MetaWear_2019");
    DeviceSuffixStripped("medium");
    Medium();
  }

  lemma Heavy2()
    ensures RStrip("heavy2", Digits) == "heavy"
    ensures RStrip("heavy", DeviceChars) == "heavy"
  {
    HeavyKept();
    StripOneDigit("heavy", '2');
    assert "heavy" + ['2'] == "heavy2";
  }

  lemma Medium()
    ensures "medium" + "_MetaWear_2019" == "medium_MetaWear_2019"
    ensures RStrip("medium", DeviceChars) == "medium"
  {
  }

  /** The participant of a recording found under ../../MetaMotion/. */
  lemma ParticipantExample()
    ensures ParticipantOf("../../MetaMotion/A") == "A"
  {
    LStripHead("../../MetaMotion/", "A", PathChars);
    PathPrefix();
  }

  lemma PathPrefix()
    ensures "../../MetaMotion/" + "A" == "../../MetaMotion/A"
    ensures LStrip("A", PathChars) == "A"
  {
  }
}
