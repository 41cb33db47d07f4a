/** The command handlers of `bot-cli.py`: the replies `input_error`
    substitutes for exceptions, `parse_input`, and the handlers that read and
    update an `AddressBook`. */
module Bot {
  import opened Common
  import opened Dates
  import Fields
  import Contacts

  // ---------------------------------------------------------------------
  // input_error

  const InvalidFormat := "Invalid command format."
  const NotFound := "That user is not found"

  /** The reply `input_error` returns in place of an exception. */
  function Message(e: Error): (m: string)
    ensures m == InvalidFormat <==> e == ValueError || e == IndexError
    ensures m == NotFound <==> e == KeyError
  {
    match e
    case KeyError => NotFound
    case _ => InvalidFormat
  }

  // ---------------------------------------------------------------------
  // parse_input

  /** `str.isspace` for one character: the separators `str.split()` splits on. */
  predicate IsSpace(c: char)
  {
    var n := c as int;
    || 9 <= n <= 13 || 28 <= n <= 32 || n == 0x85 || n == 0xA0 || n == 0x1680
    || 0x2000 <= n <= 0x200A || n == 0x2028 || n == 0x2029 || n == 0x202F
    || n == 0x205F || n == 0x3000
  }

  /** A word `split()` can produce: non-empty, without separators. */
  predicate IsWord(w: string)
  {
    w != [] && forall i :: 0 <= i < |w| ==> !IsSpace(w[i])
  }

  /** The words of `s`, where `word` is the word being read when `s` begins. */
  function Words(s: string, word: string): seq<string>
    decreases |s|
  {
    if s == [] then
      (if word == [] then [] else [word])
    else if IsSpace(s[0]) then
      (if word == [] then [] else [word]) + Words(s[1..], [])
    else
      Words(s[1..], word + [s[0]])
  }

  /** `s.split()`. */
  function Split(s: string): seq<string>
  {
    Words(s, [])
  }

  /** The characters of `s` that are not separators, in order. */
  function NonSpace(s: string): string
  {
    if s == [] then [] else (if IsSpace(s[0]) then [] else [s[0]]) + NonSpace(s[1..])
  }

  function Concat(ws: seq<string>): string
  {
    if ws == [] then [] else ws[0] + Concat(ws[1..])
  }

  /** `" ".join(ws)`. */
  function Unwords(ws: seq<string>): string
  {
    if ws == [] then [] else if |ws| == 1 then ws[0] else ws[0] + " " + Unwords(ws[1..])
  }

  predicate AllWords(ws: seq<string>)
  {
    forall i :: 0 <= i < |ws| ==> IsWord(ws[i])
  }

  lemma {:induction false} ConcatAppend(a: seq<string>, b: seq<string>)
    ensures Concat(a + b) == Concat(a) + Concat(b)
  {
    if a != [] {
      assert (a + b)[1..] == a[1..] + b;
      ConcatAppend(a[1..], b);
    } else {
      assert a + b == b;
    }
  }

  /** Splitting loses only the separators: the words, read back to back, are
      the non-separator characters, and each is a real word. */
  lemma {:induction false} WordsSpec(s: string, word: string)
    requires forall i :: 0 <= i < |word| ==> !IsSpace(word[i])
    ensures Concat(Words(s, word)) == word + NonSpace(s)
    ensures AllWords(Words(s, word))
    decreases |s|
  {
    if s == [] {
      assert word + [] == word;
    } else if IsSpace(s[0]) {
      WordsSpec(s[1..], []);
      var head: seq<string> := if word == [] then [] else [word];
      ConcatAppend(head, Words(s[1..], []));
      assert Concat(head) == word by {
        if word != [] {
          assert [word][1..] == [];
        }
      }
    } else {
      WordsSpec(s[1..], word + [s[0]]);
      assert word + [s[0]] + NonSpace(s[1..]) == word + ([s[0]] + NonSpace(s[1..]));
    }
  }

  /** Reading a word continues the word being read. */
  lemma {:induction false} WordsOfWord(w: string, rest: string, word: string)
    requires forall i :: 0 <= i < |w| ==> !IsSpace(w[i])
    ensures Words(w + rest, word) == Words(rest, word + w)
    decreases |w|
  {
    if w != [] {
      assert (w + rest)[0] == w[0] && (w + rest)[1..] == w[1..] + rest;
      WordsOfWord(w[1..], rest, word + [w[0]]);
      assert word + [w[0]] + w[1..] == word + w;
    } else {
      assert w + rest == rest && word + w == word;
    }
  }

  /** Splitting words joined by single spaces gives the words back. */
  lemma {:induction false} SplitUnwords(ws: seq<string>)
    requires AllWords(ws)
    ensures Split(Unwords(ws)) == ws
  {
    if ws == [] {
    } else if |ws| == 1 {
      WordsOfWord(ws[0], [], []);
      assert ws[0] + [] == ws[0] && [] + ws[0] == ws[0];
    } else {
      var rest := " " + Unwords(ws[1..]);
      assert Unwords(ws) == ws[0] + rest;
      WordsOfWord(ws[0], rest, []);
      assert [] + ws[0] == ws[0];
      assert rest[0] == ' ' && rest[1..] == Unwords(ws[1..]);
      SplitUnwords(ws[1..]);
      assert ws == [ws[0]] + ws[1..];
    }
  }

  /** `str.lower()` on one character, for the ASCII letters. */
  function LowerChar(c: char): char
  {
    if 'A' <= c <= 'Z' then (c as int + 32) as char else c
  }

  function Lower(s: string): (t: string)
    ensures |t| == |s| && forall i :: 0 <= i < |s| ==> t[i] == LowerChar(s[i])
  {
    if s == [] then [] else [LowerChar(s[0])] + Lower(s[1..])
  }

  /** What `parse_input` returns: the command and its arguments, or, for a
      blank line, the reply `input_error` gives for the failed unpacking. */
  datatype Parsed = Parsed(command: string, args: seq<string>) | Unparsed(reply: string)

  /** `parse_input`: split on whitespace, lower-case the first word (`strip`
      does nothing to a word `split` produced). */
  function ParseInput(line: string): Parsed
  {
    var words := Split(line);
    if words == [] then Unparsed(Message(ValueError)) else Parsed(Lower(words[0]), words[1..])
  }

  /** The first word and the rest, read back to back, are the line's
      non-separator characters. */
  lemma SplitHead(line: string)
    requires Split(line) != []
    ensures NonSpace(line) == Split(line)[0] + Concat(Split(line)[1..])
  {
    WordsSpec(line, []);
    var words := Split(line);
    assert [] + NonSpace(line) == NonSpace(line);
    assert words == [words[0]] + words[1..];
    ConcatAppend([words[0]], words[1..]);
    assert Concat([words[0]]) == words[0] by {
      assert [words[0]][1..] == [];
    }
  }

  /** A line splits into no words exactly when it is blank. */
  lemma SplitBlank(line: string)
    ensures Split(line) == [] <==> NonSpace(line) == []
  {
    WordsSpec(line, []);
    assert [] + NonSpace(line) == NonSpace(line);
    if Split(line) != [] {
      SplitHead(line);
      assert IsWord(Split(line)[0]);
    }
  }

  /** Lower-casing a word gives a word without upper-case letters. */
  lemma LowerWord(w: string)
    requires IsWord(w)
    ensures IsWord(Lower(w)) && forall i :: 0 <= i < |w| ==> !('A' <= Lower(w)[i] <= 'Z')
  {
    forall i | 0 <= i < |w| ensures !IsSpace(Lower(w)[i]) {
      assert !IsSpace(w[i]);
    }
  }

  /** A line is rejected exactly when it is blank; otherwise the command is
      the lower-cased first word, the arguments are words, and that word and
      the arguments, unchanged and back to back, are every non-separator
      character of the line. */
  lemma ParseInputSpec(line: string)
    ensures ParseInput(line).Unparsed? <==> NonSpace(line) == []
    ensures ParseInput(line).Unparsed? ==> ParseInput(line).reply == InvalidFormat
    ensures ParseInput(line).Parsed? ==>
      var p := ParseInput(line);
      && IsWord(p.command) && (forall i :: 0 <= i < |p.command| ==> !('A' <= p.command[i] <= 'Z'))
      && AllWords(p.args)
      && exists w :: IsWord(w) && p.command == Lower(w) && NonSpace(line) == w + Concat(p.args)
  {
    SplitBlank(line);
    var words := Split(line);
    if words != [] {
      WordsSpec(line, []);
      SplitHead(line);
      LowerWord(words[0]);
    }
  }

  /** Words typed with single spaces between them are read back as the
      lower-cased first word and the other words as typed. */
  lemma ParseUnwords(ws: seq<string>)
    requires AllWords(ws) && ws != []
    ensures ParseInput(Unwords(ws)) == Parsed(Lower(ws[0]), ws[1..])
  {
    SplitUnwords(ws);
  }

  // ---------------------------------------------------------------------
  // Handlers

  /** The phones a contact ends with after `add_contact` offers it `phone`:
      an empty `phone` is skipped, a rejected one changes nothing. */
  function Offered(phones: seq<string>, phone: string): Result<seq<string>>
  {
    if phone == "" then Success(phones) else Fields.AddPhone(phones, phone)
  }

  /** The first half of `add_contact`: the record stored under `name`, or a
      new empty record stored under it. */
  method FindOrCreate(name: string, book: Contacts.AddressBook) returns (record: Contacts.Record, known: bool)
    requires book.Valid()
    modifies book
    ensures book.Valid()
    ensures known == (name in old(book.data))
    ensures name in book.data && record == book.data[name]
    ensures book.Contacts() == old(book.Contacts())[name := if known then old(book.Contacts())[name] else Contacts.Contact([], None)]
    ensures book.order == if known then old(book.order) else old(book.order) + [name]
    ensures known ==> book.data == old(book.data)
    ensures !known ==> fresh(record) && book.data == old(book.data)[name := record]
  {
    var found := book.Find(name);
    if found.None? {
      record := new Contacts.Record(name);
      book.AddRecord(record);
      known := false;
    } else {
      record := found.value;
      known := true;
    }
  }

  /** The second half of `add_contact`: `record.add_phone(phone)` unless
      `phone` is empty, on the record stored under `name`. */
  method OfferPhone(record: Contacts.Record, name: string, phone: string, book: Contacts.AddressBook)
    returns (outcome: Outcome)
    requires book.Valid() && name in book.data && record == book.data[name]
    modifies record`phones
    ensures book.Valid()
    ensures var before := old(book.Contacts())[name];
      var added := Offered(before.phones, phone);
      && outcome == OutcomeOf(added)
      && book.Contacts() == old(book.Contacts())[name := before.(phones := StateAfter(added, before.phones))]
  {
    if phone == "" {
      return Returned;
    }
    label Before:
    outcome := record.AddPhone(phone);
    book.RecordUpdated@Before(name);
  }

  /** `add_contact`: find the record or create and store a new one, then add
      the phone. A record created here stays in the book even when its phone
      is rejected. */
  method AddContact(args: seq<string>, book: Contacts.AddressBook) returns (reply: string)
    requires book.Valid()
    modifies book, book.data.Values
    ensures book.Valid()
    ensures |args| < 2 ==>
      reply == InvalidFormat && book.data == old(book.data) && book.order == old(book.order)
      && book.Contacts() == old(book.Contacts())
    ensures |args| >= 2 ==>
      var name := args[0];
      var known := name in old(book.data);
      var before := if known then old(book.Contacts())[name] else Contacts.Contact([], None);
      var added := Offered(before.phones, args[1]);
      && book.Contacts() == old(book.Contacts())[name := before.(phones := StateAfter(added, before.phones))]
      && book.order == (if known then old(book.order) else old(book.order) + [name])
      && (known ==> book.data == old(book.data))
      && (!known ==> fresh(book.data[name]) && book.data == old(book.data)[name := book.data[name]])
      && reply == (if added.Failure? then InvalidFormat
                   else if known then "Contact updated." else "Contact added.")
  {
    if |args| < 2 {
      return Message(ValueError);
    }
    var name, phone := args[0], args[1];
    ghost var start := book.Contacts();
    ghost var before := if name in book.data then start[name] else Contacts.Contact([], None);
    var record, known := FindOrCreate(name, book);
    ghost var middle := book.Contacts();
    assert middle == start[name := before];
    assert middle[name] == before;
    reply := if known then "Contact updated." else "Contact added.";
    var outcome := OfferPhone(record, name, phone, book);
    ghost var after := before.(phones := StateAfter(Offered(before.phones, phone), before.phones));
    UpdateTwice(start, name, before, after);
    if outcome.Raised? {
      reply := Message(outcome.error);
    }
  }

  /** `change_contact`: on a stored name, `edit_phone` on its record, whose
      rewrites stay even when it raises part-way; the reply is the record's
      text (which `main` prints). */
  method ChangeContact(args: seq<string>, book: Contacts.AddressBook) returns (reply: string)
    requires book.Valid()
    modifies book.data.Values
    ensures book.Valid() && book.data == old(book.data) && book.order == old(book.order)
    ensures |args| < 3 ==> reply == InvalidFormat && book.Contacts() == old(book.Contacts())
    ensures |args| >= 3 && args[0] !in book.data ==> reply == NotFound && book.Contacts() == old(book.Contacts())
    ensures |args| >= 3 && args[0] in book.data ==>
      var name := args[0];
      var before := old(book.Contacts())[name];
      var edit := Fields.EditPhone(before.phones, args[1], args[2]);
      && book.Contacts() == old(book.Contacts())[name := before.(phones := edit.phones)]
      && reply == (if edit.outcome == Returned then book.data[name].Text() else InvalidFormat)
  {
    if |args| < 3 {
      return Message(ValueError);
    }
    var name, oldPhone, newPhone := args[0], args[1], args[2];
    var found := book.Find(name);
    if found.None? {
      return Message(KeyError);
    }
    var record := found.value;
    label Before:
    var outcome := record.EditPhone(oldPhone, newPhone);
    book.RecordUpdated@Before(name);
    if outcome.Raised? {
      return Message(outcome.error);
    }
    return record.Text();
  }

  /** `phone_user`: the text of the record stored under the name. */
  function PhoneUser(args: seq<string>, book: Contacts.AddressBook): (reply: string)
    reads book, book.data.Values
    requires book.Valid()
    ensures |args| == 0 ==> reply == InvalidFormat
    ensures reply == NotFound <==> |args| >= 1 && args[0] !in book.data
    ensures |args| >= 1 && args[0] in book.data ==> reply == book.data[args[0]].Text()
  {
    if |args| < 1 then Message(ValueError)
    else match book.Find(args[0])
      case None => Message(KeyError)
      case Some(record) => record.Text()
  }

  /** `add_birthday`: on a stored name, parse and store the birthday. */
  method AddBirthday(args: seq<string>, book: Contacts.AddressBook) returns (reply: string)
    requires book.Valid()
    modifies book.data.Values
    ensures book.Valid() && book.data == old(book.data) && book.order == old(book.order)
    ensures |args| < 2 ==> reply == InvalidFormat && book.Contacts() == old(book.Contacts())
    ensures |args| >= 2 && args[0] !in book.data ==>
      reply == "There is no contact with name " + args[0] && book.Contacts() == old(book.Contacts())
    ensures |args| >= 2 && args[0] in book.data ==>
      var name := args[0];
      var before := old(book.Contacts())[name];
      match Fields.AddBirthday(before.birthday, args[1])
      case Success(d) =>
        && reply == "Birthday added."
        && book.Contacts() == old(book.Contacts())[name := before.(birthday := Some(d))]
      case Failure(_) =>
        && reply == InvalidFormat
        && book.Contacts() == old(book.Contacts())
  {
    if |args| < 2 {
      return Message(ValueError);
    }
    var name, text := args[0], args[1];
    var found := book.Find(name);
    if found.None? {
      return "There is no contact with name " + name;
    }
    var record := found.value;
    label Before:
    var outcome := record.AddBirthday(text);
    book.RecordUpdated@Before(name);
    if outcome.Raised? {
      return Message(outcome.error);
    }
    return "Birthday added.";
  }

  /** `show_birthday`: the stored birthday as DD.MM.YYYY, or why there is none. */
  function ShowBirthday(args: seq<string>, book: Contacts.AddressBook): (reply: string)
    reads book, book.data.Values
    requires book.Valid()
    ensures |args| == 0 ==> reply == InvalidFormat
    ensures |args| >= 1 && args[0] !in book.data ==> reply == "There is no contact with name " + args[0]
    ensures |args| >= 1 && args[0] in book.data && book.data[args[0]].birthday.None? ==>
      reply == "There is no birthday added for " + args[0]
    ensures Parse(reply).Success? <==> |args| >= 1 && args[0] in book.data && book.data[args[0]].birthday.Some?
    ensures Parse(reply).Success? ==> Parse(reply).value == book.data[args[0]].birthday.value
  {
    if |args| < 1 then Message(ValueError)
    else match book.Find(args[0])
      case None => "There is no contact with name " + args[0]
      case Some(record) =>
        match record.birthday
        case None => "There is no birthday added for " + args[0]
        case Some(d) => ParseFormat(d); Format(d)
  }
}
