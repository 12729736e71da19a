/** The chat endpoint (src/app/api/query/route.ts): request checks, query
    extraction, mapping search hits to document records, the numbered
    context block and the system prompt handed to the language model. */
module ChatRoute {
  import opened Strings
  import opened JsValues
  import opened Optional

  /** One part of a UI message: its `type` and, for text parts, its text. */
  datatype Part = Part(kind: string, text: string)

  /** A UI message; `parts` may be absent. */
  datatype Message = Message(role: string, parts: Option<seq<Part>>)

  /** A search hit: the stored chunk's text and metadata (its distance
      score is not modelled). */
  datatype Hit = Hit(pageContent: string, metadata: Entries)

  /** The record built for each hit. */
  datatype DocRecord = DocRecord(content: string, source: Value, page: Value)

  /** What the handler answers: an error with its HTTP status, or the
      model's streamed reply to `messages` under `system`, for the search
      run with `query`. */
  datatype Response =
    | Failure(status: int, error: string)
    | Streamed(query: string, system: string, messages: seq<Message>)

  /** Number of hits asked of the vector store. */
  const TopK: nat := 4

  const MessagesRequired: string := "Messages are required"
  const LastNotFromUser: string := "Last message must be from user"
  const ChatFailed: string := "Failed to process chat"

  /** The text of the message's first part if that part is a text part,
      and "" otherwise. */
  function QueryText(last: Message): string
  {
    if last.parts.Some? && |last.parts.value| > 0 && last.parts.value[0].kind == "text"
    then last.parts.value[0].text
    else ""
  }

  /** Only the first part is consulted, and a message without parts
      gives the empty query. */
  lemma QueryTextFirstPartOnly(role: string, first: Part, rest: seq<Part>)
    ensures QueryText(Message(role, Some([first] + rest)))
         == if first.kind == "text" then first.text else ""
    ensures QueryText(Message(role, None)) == ""
    ensures QueryText(Message(role, Some([]))) == ""
  {
  }

  /** `{content, source, page}` for one hit: `page` is the metadata's
      `loc_pageNumber` when that is truthy, and null otherwise. */
  function ToDocument(hit: Hit): DocRecord
  {
    var pageNumber := Get(hit.metadata, "loc_pageNumber");
    DocRecord(hit.pageContent, Get(hit.metadata, "source"),
              if Truthy(pageNumber) then pageNumber else Null)
  }

  function Documents(hits: seq<Hit>): seq<DocRecord>
  {
    seq(|hits|, i requires 0 <= i < |hits| => ToDocument(hits[i]))
  }

  /** A record's page is truthy exactly when the hit's `loc_pageNumber` is,
      and is then that value; its source is the hit's `source`. */
  lemma DocumentPage(hit: Hit)
    ensures Truthy(ToDocument(hit).page) <==> Truthy(Get(hit.metadata, "loc_pageNumber"))
    ensures Truthy(ToDocument(hit).page) ==> ToDocument(hit).page == Get(hit.metadata, "loc_pageNumber")
    ensures !Truthy(ToDocument(hit).page) ==> ToDocument(hit).page == Null
    ensures ToDocument(hit).source == Get(hit.metadata, "source")
    ensures ToDocument(hit).content == hit.pageContent
  {
  }

  /** `" (Page p)"` when the page is truthy, "" otherwise. */
  function PageInfo(doc: DocRecord): string
  {
    if Truthy(doc.page) then " (Page " + Display(doc.page) + ")" else ""
  }

  /** The head of a block, before the optional page suffix. */
  function BlockHead(n: nat, doc: DocRecord): string
  {
    "Document " + NatToString(n) + " from " + Display(doc.source)
  }

  /** `Document n from <source>[ (Page p)]:\n<content>`. */
  function Block(n: nat, doc: DocRecord): string
  {
    BlockHead(n, doc) + PageInfo(doc) + ":\n" + doc.content
  }

  /** The blocks of `docs`, numbered from 1 in retrieval order. */
  function Blocks(docs: seq<DocRecord>): seq<string>
  {
    seq(|docs|, i requires 0 <= i < |docs| => Block(i + 1, docs[i]))
  }

  /** The context: the blocks joined by a blank line. */
  function Context(docs: seq<DocRecord>): string
  {
    Join(Blocks(docs), "\n\n")
  }

  /** The page suffix follows the block head exactly when the page is
      truthy; otherwise the head is followed directly by the colon. */
  lemma PageSuffixIff(n: nat, doc: DocRecord)
    ensures StartsWith(Block(n, doc), BlockHead(n, doc))
    ensures StartsWith(Block(n, doc)[|BlockHead(n, doc)|..], " (Page ") <==> Truthy(doc.page)
    ensures Truthy(doc.page) ==>
      StartsWith(Block(n, doc)[|BlockHead(n, doc)|..], " (Page " + Display(doc.page) + "):\n")
  {
    var head := BlockHead(n, doc);
    var b := Block(n, doc);
    assert b == head + (PageInfo(doc) + ":\n" + doc.content);
    var rest := b[|head|..];
    assert rest == PageInfo(doc) + ":\n" + doc.content;
    if !Truthy(doc.page) {
      assert rest[0] == ':';
    } else {
      assert rest[..|" (Page " + Display(doc.page) + "):\n"|] == " (Page " + Display(doc.page) + "):\n";
    }
  }

  /** Appending a document appends one block numbered with its position,
      after a blank line. */
  lemma ContextSnoc(docs: seq<DocRecord>, doc: DocRecord)
    ensures Context(docs + [doc])
         == if docs == [] then Block(1, doc) else Context(docs) + "\n\n" + Block(|docs| + 1, doc)
  {
    var all := docs + [doc];
    assert Blocks(all) == Blocks(docs) + [Block(|docs| + 1, doc)];
    JoinSnoc(Blocks(docs), Block(|docs| + 1, doc), "\n\n");
  }

  lemma {:induction false} JoinSnoc(pieces: seq<string>, last: string, sep: string)
    ensures Join(pieces + [last], sep) == if pieces == [] then last else Join(pieces, sep) + sep + last
    decreases |pieces|
  {
    if |pieces| >= 2 {
      assert (pieces + [last])[1..] == pieces[1..] + [last];
      JoinSnoc(pieces[1..], last, sep);
    } else if |pieces| == 1 {
      assert (pieces + [last])[1..] == [last];
    }
  }

  /** The context is empty exactly when no document was retrieved; when
      one was, it opens with the first block's head. */
  lemma ContextEmptyIff(docs: seq<DocRecord>)
    ensures Context(docs) == "" <==> docs == []
    ensures docs != [] ==> StartsWith(Context(docs), "Document 1 from ")
  {
    if docs != [] {
      var blocks := Blocks(docs);
      var first := Block(1, docs[0]);
      assert blocks[0] == first;
      assert NatToString(1) == "1";
      assert StartsWith(first, "Document 1 from ");
      if |blocks| > 1 {
        assert Context(docs) == first + ("\n\n" + Join(blocks[1..], "\n\n"));
      }
    }
  }

  const Instructions: string :=
    "You are a helpful AI assistant that answers questions based on the provided context.\n"
    + "Your task is to:\n"
    + "1. Answer the user's question using ONLY the information from the context documents\n"
    + "2. Be clear and concise in your response\n"
    + "3. If the context doesn't contain enough information to fully answer the question, acknowledge this\n"
    + "4. Cite which document(s) you're referencing when possible\n"
    + "5. Do not make up information that isn't in the context\n"

  const NoDocumentsLine: string :=
    "6. " + "No documents were found for this query, provide your best answer if possible.\n"

  const ContextHeading: string := "\nContext documents:\n"

  const NoContext: string := "No relevant documents found."

  /** The system prompt: the instructions, line 6 when no document was
      retrieved, then the context or, when that is empty, the fallback. */
  function SystemPrompt(docs: seq<DocRecord>): string
  {
    var context := Context(docs);
    Instructions
      + (if |docs| == 0 then NoDocumentsLine else "")
      + ContextHeading
      + (if context == "" then NoContext else context)
  }

  lemma ConstantHeads()
    ensures NoDocumentsLine[0] == '6' && ContextHeading[0] == '\n' && NoContext[0] == 'N'
  {
  }

  /** Instruction line 6 follows the five fixed instructions if and only
      if no document was retrieved. */
  lemma Line6Iff(docs: seq<DocRecord>)
    ensures StartsWith(SystemPrompt(docs), Instructions)
    ensures StartsWith(SystemPrompt(docs)[|Instructions|..], NoDocumentsLine) <==> docs == []
  {
    ContextEmptyIff(docs);
    var p := SystemPrompt(docs);
    var section := if Context(docs) == "" then NoContext else Context(docs);
    var tail := (if |docs| == 0 then NoDocumentsLine else "") + ContextHeading + section;
    assert p == Instructions + tail;
    assert p[|Instructions|..] == tail;
    if docs != [] {
      ConstantHeads();
      assert tail == ContextHeading + section;
      assert tail[0] == '\n';
      assert !StartsWith(tail, NoDocumentsLine) by {
        assert tail[0] != NoDocumentsLine[0];
      }
    } else {
      assert tail[..|NoDocumentsLine|] == NoDocumentsLine;
    }
  }

  /** The context section reads "No relevant documents found." exactly
      when no document was retrieved, and is the joined blocks otherwise. */
  lemma ContextSection(docs: seq<DocRecord>)
    ensures docs == [] ==> SystemPrompt(docs) == Instructions + NoDocumentsLine + ContextHeading + NoContext
    ensures docs != [] ==> SystemPrompt(docs) == Instructions + ContextHeading + Context(docs)
    ensures docs != [] ==> Context(docs) != NoContext
  {
    ContextEmptyIff(docs);
    if docs != [] {
      assert SystemPrompt(docs) == (Instructions + "") + ContextHeading + Context(docs);
      ConstantHeads();
      assert Context(docs)[0] == 'D';
    }
  }

  /** `POST`: `messages` is None when the body has none. `search` is the
      vector store's similarity search (None when it, the embedding call
      or the connection throws). `convertOk` says whether
      `convertToModelMessages` accepts the messages. */
  function HandleChat(messages: Option<seq<Message>>, search: (string, nat) -> Option<seq<Hit>>,
                      convertOk: bool): (r: Response)
    ensures r.Failure? && r.status == 400 <==>
      messages.None? || |messages.value| == 0 || messages.value[|messages.value| - 1].role != "user"
    ensures r.Failure? && r.status == 400 ==>
      r.error == if messages.None? || |messages.value| == 0 then MessagesRequired else LastNotFromUser
    ensures messages.Some? && |messages.value| > 0 && messages.value[|messages.value| - 1].role == "user" ==>
      (r.Streamed? <==> search(QueryText(messages.value[|messages.value| - 1]), TopK).Some? && convertOk)
    ensures r.Streamed? ==>
              && messages.Some? && |messages.value| > 0
              && r.query == QueryText(messages.value[|messages.value| - 1])
              && search(r.query, TopK).Some?
              && r.system == SystemPrompt(Documents(search(r.query, TopK).value))
              && r.messages == messages.value
    ensures r.Failure? && r.status != 400 ==> r == Failure(500, ChatFailed)
  {
    if messages.None? || |messages.value| == 0 then
      Failure(400, MessagesRequired)
    else
      var lastMessage := messages.value[|messages.value| - 1];
      if lastMessage.role != "user" then
        Failure(400, LastNotFromUser)
      else
        var query := QueryText(lastMessage);
        match search(query, TopK)
        case None => Failure(500, ChatFailed)
        case Some(results) =>
          if !convertOk then Failure(500, ChatFailed)
          else Streamed(query, SystemPrompt(Documents(results)), messages.value)
  }

  /** A request without messages is refused before any search. */
  lemma NoSearchWithoutMessages(messages: Option<seq<Message>>,
                                s1: (string, nat) -> Option<seq<Hit>>, s2: (string, nat) -> Option<seq<Hit>>,
                                c1: bool, c2: bool)
    requires messages.None? || |messages.value| == 0
    ensures HandleChat(messages, s1, c1) == HandleChat(messages, s2, c2) == Failure(400, MessagesRequired)
  {
  }
}
