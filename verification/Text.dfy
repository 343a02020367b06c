/** Splitting and joining at slashes, and trimming. */
module Text {
  predicate SlashFree(text: string) { '/' !in text }

  predicate Component(text: string) { text != "" && SlashFree(text) }

  /** strings.Split(text, "/"). */
  function Split(text: string): (parts: seq<string>)
    ensures |parts| > 0
  {
    if text == "" then [""]
    else
      var rest := Split(text[1..]);
      if text[0] == '/' then [""] + rest else [[text[0]] + rest[0]] + rest[1..]
  }

  /** strings.Join(parts, "/"). */
  function Join(parts: seq<string>): string {
    if parts == [] then ""
    else if |parts| == 1 then parts[0]
    else parts[0] + "/" + Join(parts[1..])
  }

  lemma {:induction false} SplitPrefix(part: string, rest: string)
    requires SlashFree(part)
    ensures Split(part + "/" + rest) == [part] + Split(rest)
    ensures Split(part) == [part]
  {
    if part == "" {
      assert (part + "/" + rest)[1..] == rest;
    } else {
      SplitPrefix(part[1..], rest);
      assert (part + "/" + rest)[1..] == part[1..] + "/" + rest;
      assert [part[0]] + part[1..] == part;
    }
  }

  lemma {:induction false} SplitJoin(parts: seq<string>)
    requires parts != [] && forall part :: part in parts ==> SlashFree(part)
    ensures Split(Join(parts)) == parts
  {
    assert SlashFree(parts[0]);
    if |parts| == 1 {
      SplitPrefix(parts[0], "");
    } else {
      var rest := parts[1..];
      SplitJoin(rest);
      SplitPrefix(parts[0], Join(rest));
      assert [parts[0]] + rest == parts;
    }
  }

  lemma {:induction false} JoinSplit(text: string)
    ensures Join(Split(text)) == text
    ensures forall part :: part in Split(text) ==> SlashFree(part)
  {
    if text != "" {
      var rest := Split(text[1..]);
      JoinSplit(text[1..]);
      if text[0] == '/' {
        assert ([""] + rest)[1..] == rest;
      } else {
        var first := [text[0]] + rest[0];
        assert ([first] + rest[1..])[1..] == rest[1..];
        assert SlashFree(rest[0]) && SlashFree(first);
      }
    }
  }

  /** Join puts a slash between two lists of parts. */
  lemma {:induction false} JoinAppend(front: seq<string>, back: seq<string>)
    requires front != [] && back != []
    ensures Join(front + back) == Join(front) + "/" + Join(back)
  {
    if |front| > 1 {
      JoinAppend(front[1..], back);
      assert (front + back)[1..] == front[1..] + back;
    }
  }

  /** What strings.TrimSpace removes. */
  predicate IsSpace(c: char) {
    var code := c as int;
    || 9 <= code <= 13 || code == 32 || code == 0x85 || code == 0xA0 || code == 0x1680 || 0x2000 <= code <= 0x200A
    || code == 0x2028 || code == 0x2029 || code == 0x202F || code == 0x205F || code == 0x3000
  }

  function TrimLeft(text: string, drop: char -> bool): string {
    if text != "" && drop(text[0]) then TrimLeft(text[1..], drop) else text
  }

  function TrimRight(text: string, drop: char -> bool): string {
    if text != "" && drop(text[|text| - 1]) then TrimRight(text[..|text| - 1], drop) else text
  }

  function Trim(text: string, drop: char -> bool): string { TrimRight(TrimLeft(text, drop), drop) }

  lemma {:induction false} SplitEnd(text: string)
    requires text != "" && text[|text| - 1] != '/'
    ensures Split(text)[|Split(text)| - 1] != ""
  {
    var rest := text[1..];
    if rest == "" {
      assert Split(rest) == [""];
    } else {
      assert rest[|rest| - 1] == text[|text| - 1];
      SplitEnd(rest);
    }
  }

  lemma {:induction false} TrimRightEnd(text: string, drop: char -> bool)
    ensures TrimRight(text, drop) != "" ==> !drop(TrimRight(text, drop)[|TrimRight(text, drop)| - 1])
  {
    if text != "" { TrimRightEnd(text[..|text| - 1], drop); }
  }
}
