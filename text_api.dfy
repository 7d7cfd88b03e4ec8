/** The service's in-memory text store and the handlers that use it: list
    every text, add (or overwrite) a text under an id, delete a text, and
    summarize the text stored under an id. HTTP routing and JSON encoding are
    not modelled; each handler takes its decoded arguments and returns its
    decoded result. */
module TextApi {
  import opened Summarizer

  datatype Option<T> = None | Some(value: T)

  /** What deleting an id reports. */
  datatype DeleteResult = Deleted | NotFound

  /** `texts.get(id, '')`: the text stored under `id`, or the empty text. */
  function Lookup(texts: map<int, string>, id: int): string
  {
    if id in texts then texts[id] else ""
  }

  /** The global dictionary from text id to text. */
  class TextStore {
    var texts: map<int, string>

    constructor (initial: map<int, string>)
      ensures texts == initial
    {
      texts := initial;
    }

    /** GET /texts: every stored text by id. */
    method GetTexts() returns (all: map<int, string>)
      ensures all == texts
    {
      all := texts;
    }

    /** POST /texts/<id>: stores the request's `text_data` (the empty text when
        the field is missing) under `id`, replacing any text already there,
        and echoes the id and the stored text. */
    method AddText(id: int, textData: Option<string>) returns (storedId: int, stored: string)
      modifies this
      ensures storedId == id
      ensures stored == if textData.Some? then textData.value else ""
      ensures texts == old(texts)[id := stored]
      ensures Lookup(texts, id) == stored
      ensures texts.Keys == old(texts).Keys + {id}
      ensures forall k :: k in old(texts) && k != id ==> texts[k] == old(texts)[k]
    {
      stored := if textData.Some? then textData.value else "";
      texts := texts[id := stored];
      storedId := id;
    }

    /** DELETE /texts/<id>: removes the text stored under `id` and reports it
        deleted, or reports it not found and changes nothing. */
    method DeleteText(id: int) returns (result: DeleteResult)
      modifies this
      ensures result == if id in old(texts) then Deleted else NotFound
      ensures texts == old(texts) - {id}
      ensures id !in texts && Lookup(texts, id) == ""
      ensures result == NotFound ==> texts == old(texts)
      ensures forall k :: k in texts ==> k in old(texts) && texts[k] == old(texts)[k]
      ensures forall k :: k in old(texts) && k != id ==> k in texts
    {
      if id in texts {
        texts := texts - {id};
        result := Deleted;
      } else {
        result := NotFound;
      }
    }

    /** POST /summarize/<id>: summarizes the text stored under `id`, or the
        empty text when there is none. `nlp` stands for the NLP pipeline that
        splits a text into annotated sentences. */
    method SummarizeTextApi(id: int, nlp: string -> seq<Sentence>) returns (summary: string)
      ensures summary == Summary(nlp(Lookup(texts, id)))
      ensures id in texts ==> summary == Summary(nlp(texts[id]))
      ensures id !in texts ==> summary == Summary(nlp(""))
    {
      var text := Lookup(texts, id);
      summary := SummarizeText(nlp(text));
    }
  }
}
