/** Header fields, found again in the text of a request. */
module RequestFields {
  import opened Bytes
  import opened HttpMessages
  import opened Multiparts

  // What ends a name.
  const NAME_END: bytes := [HttpMessages.COLON, ' ' as int]

  // ---- Reading ----

  // The field of a line, if it has a name.
  function FieldOf(line: bytes): Option<Field> {
    match Find(line, NAME_END)
    case None => None
    case Some(colon) => Some(Field(line[..colon], line[colon + 2..]))
  }

  // The fields of a text, up to the first line without a name.
  function FieldsIn(text: bytes): seq<Field>
    decreases |text|
  {
    match Find(text, CRLF)
    case None => []
    case Some(end) =>
      match FieldOf(text[..end])
      case None => []
      case Some(field) => [field] + FieldsIn(text[end + 2..])
  }

  /** The field lines of a head, one after the other. */
  class FieldLines {
    var rest: bytes

    constructor (text: bytes)
      ensures rest == text
    {
      rest := text;
    }

    method Next() returns (field: Option<Field>)
      modifies this
      ensures field == if FieldsIn(old(rest)) == [] then None else Some(FieldsIn(old(rest))[0])
      ensures field.Some? ==> FieldsIn(rest) == FieldsIn(old(rest))[1..]
      ensures field.Some? ==> |rest| < |old(rest)|
      ensures rest == match Find(old(rest), CRLF) case None => old(rest) case Some(end) => old(rest)[end + 2..]
    {
      hide Find;
      var end := Find(rest, CRLF);
      if end == None {
        return None;
      }
      var line := rest[..end.value];
      rest := rest[end.value + 2..];
      var colon := Find(line, NAME_END);
      if colon == None {
        return None;
      }
      return Some(Field(line[..colon.value], line[colon.value + 2..]));
    }
  }

  // ---- Reading undoes writing ----

  function LineOf(field: Field): bytes { field.name + NAME_END + field.value }

  function PrintFields(fields: seq<Field>): bytes {
    if fields == [] then [] else LineOf(fields[0]) + CRLF + PrintFields(fields[1..])
  }

  // A field that a line holds: no line break, and no end of a name within the name.
  ghost predicate IsField(field: Field) {
    !Contains(LineOf(field), CRLF) && !Contains(field.name, NAME_END)
  }

  // Two different bytes do not occur at two places next to each other.
  lemma NoOverlap(s: bytes, needle: bytes, k: nat)
    requires |needle| == 2 && needle[0] != needle[1] && Occurs(s, needle, k + 1)
    ensures !Occurs(s, needle, k)
  {
    assert s[k + 1..k + 3][0] == s[k + 1] && s[k..k + 2][1] == s[k + 1];
  }

  // What `needle` ends is found, as no place of it reaches into itself.
  lemma FoundAfter(before: bytes, needle: bytes, after: bytes)
    requires needle == CRLF || needle == NAME_END
    ensures Find(before + needle + after, needle) == Some(|before|) <==> !Contains(before, needle)
  {
    hide Find;
    var s := before + needle + after;
    FindIsFirst(s, needle);
    assert s[|before|..|before| + 2] == needle;
    assert Occurs(s, needle, |before|);
    forall k: nat | k < |before| ensures Occurs(s, needle, k) <==> Occurs(before, needle, k) {
      if k + 2 <= |before| {
        assert s[k..k + 2] == before[k..k + 2];
      } else {
        NoOverlap(s, needle, k);
      }
    }
    if Contains(before, needle) {
      var at: nat :| Occurs(before, needle, at);
      assert Occurs(s, needle, at) && at < |before|;
    } else {
      assert forall k: nat :: k < |before| ==> !Occurs(s, needle, k);
    }
  }

  // The fields of a printed head are read back exactly if each is a field.
  lemma {:induction false} FieldsReadBack(fields: seq<Field>)
    ensures FieldsIn(PrintFields(fields)) == fields <==> forall i :: 0 <= i < |fields| ==> IsField(fields[i])
    decreases |fields|
  {
    hide Find, Contains;
    if fields == [] {
      NothingFound();
    } else {
      var field, rest := fields[0], PrintFields(fields[1..]);
      FieldsReadBack(fields[1..]);
      FoundAfter(LineOf(field), CRLF, rest);
      FoundAfter(field.name, NAME_END, field.value);
      FirstIsField(PrintFields(fields));
      var line := LineOf(field);
      assert line[..|field.name|] == field.name && line[|field.name| + 2..] == field.value;
      assert PrintFields(fields)[..|line|] == line && PrintFields(fields)[|line| + 2..] == rest;
      assert fields == [field] + fields[1..];
      assert (forall i :: 0 <= i < |fields| ==> IsField(fields[i]))
        <==> IsField(field) && forall i :: 0 <= i < |fields[1..]| ==> IsField(fields[1..][i]) by {
        AllOrRest(fields);
      }
    }
  }

  lemma AllOrRest(fields: seq<Field>)
    requires fields != []
    ensures (forall i :: 0 <= i < |fields| ==> IsField(fields[i]))
       <==> IsField(fields[0]) && forall i :: 0 <= i < |fields[1..]| ==> IsField(fields[1..][i])
  {
    hide IsField;
    assert forall i :: 0 < i < |fields| ==> fields[i] == fields[1..][i - 1];
  }

  lemma NothingFound()
    ensures FieldsIn([]) == []
  {
  }

  // A field that is read has no line break in its line, and no end of a name in its name.
  lemma FirstIsField(text: bytes)
    ensures FieldsIn(text) != [] ==> IsField(FieldsIn(text)[0])
  {
    hide Find;
    if Find(text, CRLF).Some? {
      var end := Find(text, CRLF).value;
      var line := text[..end];
      FoundHere(text, CRLF);
      FoundAfter(line, CRLF, text[end + 2..]);
      if Find(line, NAME_END).Some? {
        var colon := Find(line, NAME_END).value;
        FoundHere(line, NAME_END);
        FoundAfter(line[..colon], NAME_END, line[colon + 2..]);
      }
    }
  }
}
