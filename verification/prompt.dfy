/** The instruction sent to the text-generation backend
    (`apply_prompt_template`): a fixed Spanish text describing the imported
    vehicles table, with the user's request spliced in verbatim near the end.
 */
module Prompt {
  import opened Strings

  /** The lines of the template before `{user_input}`, without their line
      breaks: an empty first line (the literal opens with a line break), then
      the column list with types, the disambiguation rules and the
      controlled vocabularies, each non-blank line indented by eight spaces
      as in the triple-quoted literal. The last line ends where the request goes. */
  const PreambleLines: seq<string> := [
      "",
      "        Eres un asistente de IA especializado en análisis de datos con Python y la librería Pandas. ",
      "        El usuario tiene un DataFrame llamado 'df' y quiere filtrarlo según las condiciones proporcionadas.",
      "        ",
      "        Las columnas y tipos de dato para el dataframe son:",
      "        FRV, FECHA (Date), NIT, REGISTRO, CHASIS, MOTOR, PARTIDA, AÑO_MODELO (numérico), MARCA, CLASE, MODELO, VERSION, CILINDRADA (numérico), ",
      "        PAIS_ORIGEN, NRO_PUERTAS (numérico), TRACCION, CAPACIDAD_CARGA, NRO_RUEDAS, COMBUSTIBLE, AÑO_FABRICACION (numérico), DUI, FOB, PROVEEDOR, ",
      "        DOCUMENTO, IMPORTADOR, LEVANTE, CANAL, FOB_2, FOB_3, ÚLTIMO_ENVÍO_RUAT, CLASE_SELECT, GAP_IMP (numérico), ",
      "        MARCA_SELECT, TIPO_SELECT, CLUST_IMPORTADOR (entero), IMPORTADOR_AGRUPADO (factor), MERCADO, TIPO_COMERCIO, COMPETENCIA, SUBSEGMENTO.",
      "",
      "        Cuando el usuario pida \"fecha\", \"año\" o \"gestión\", usa solo la columna \"FECHA\" con funciones de fecha/hora.",
      "        Cuando el usuario mencione MARCA, usa solo el campo MARCA y convierte el valor de entrada a mayúsculas.",
      "        Cuando el usuario pida subsegmento, convierte el valor de entrada a mayúsculas.",
      "        Cuando el usuario pida el Importador, usa solamente y nada mas que el campo \"importador_agrupado\".",
      "        Todos los nombres de las variables se encuentran en mayúsculas, no necesariamente los valores de cada variable.",
      "",
      "        Las únicas Opciones disponibles en los campos tipo_comercio, mercado, marca_select son:",
      "        - \"tipo_comercio\": \"Minorista\", \"Distribuidor\"",
      "        - \"mercado\": \"Gris\", \"Formal\"",
      "        - \"marca_select\" y \"tipo_select\": \"YES\", \"NO\"",
      "        - \"Competencia\": \"COMPETENCIA\",\"OTRO\"",
      "",
      "        Proporciona código Python para filtrar 'df' basado en: "
    ]

  /** Everything the template puts before `{user_input}`. */
  const Preamble: string := Join("\n", PreambleLines)

  /** Everything the template puts after `{user_input}`: the request for
      code only, and the indentation before the closing quotes. */
  const Closing: string :=
    ".\n        Devuelve solo el código sin ningún comentario.\n        "

  /** A request framed by a fixed text before it and a fixed text after
      it: the request is copied in unchanged, so the result starts with
      `pre`, ends with `post`, holds the request between them, and is as long
      as the three together. */
  function Frame(pre: string, request: string, post: string): (framed: string)
    ensures |framed| == |pre| + |request| + |post|
    ensures StartsWith(framed, pre) && EndsWith(framed, post)
    ensures framed[|pre|..|framed| - |post|] == request
  {
    pre + request + post
  }

  /** What lies between `pre` and `post` in a framed text. */
  function Unframe(pre: string, framed: string, post: string): string
    requires |pre| + |post| <= |framed|
  {
    framed[|pre|..|framed| - |post|]
  }

  /** Every text that starts with `pre` and ends with `post`, the two not
      overlapping, is the frame of what lies between them. */
  lemma FrameOfUnframe(pre: string, framed: string, post: string)
    requires |pre| + |post| <= |framed|
    requires StartsWith(framed, pre) && EndsWith(framed, post)
    ensures Frame(pre, Unframe(pre, framed, post), post) == framed
  {
    var u := Unframe(pre, framed, post);
    var r := Frame(pre, u, post);
    forall k | 0 <= k < |framed| ensures r[k] == framed[k] {
      if k < |pre| {
        assert r[k] == pre[k] == framed[..|pre|][k];
      } else if k < |framed| - |post| {
        assert r[k] == u[k - |pre|];
      } else {
        assert r[k] == post[k - |pre| - |u|] == framed[|framed| - |post|..][k - |pre| - |u|];
      }
    }
  }

  /** `apply_prompt_template(user_input)`. Defined for every input, the
      empty one included: the request is copied in unchanged between the
      two fixed parts, so the prompt is exactly as long as those parts and
      the request together. */
  function ApplyPromptTemplate(userInput: string): (prompt: string)
    ensures |prompt| == |Preamble| + |userInput| + |Closing|
    ensures StartsWith(prompt, Preamble) && EndsWith(prompt, Closing)
    ensures prompt[|Preamble|..|prompt| - |Closing|] == userInput
  {
    Frame(Preamble, userInput, Closing)
  }

  /** Recovers the request from a prompt: what lies between the two fixed parts. */
  function UserInputOf(prompt: string): string
    requires |Preamble| + |Closing| <= |prompt|
  {
    Unframe(Preamble, prompt, Closing)
  }

  /** The request can be read back out of the prompt built from it. */
  lemma RequestRoundTrip(userInput: string)
    ensures UserInputOf(ApplyPromptTemplate(userInput)) == userInput
  {
  }

  /** Conversely, every text that starts with the preamble and ends with the
      closing (without the two overlapping) is the prompt of exactly one
      request. */
  lemma PromptRoundTrip(prompt: string)
    requires |Preamble| + |Closing| <= |prompt|
    requires StartsWith(prompt, Preamble) && EndsWith(prompt, Closing)
    ensures ApplyPromptTemplate(UserInputOf(prompt)) == prompt
  {
    FrameOfUnframe(Preamble, prompt, Closing);
  }

  /** Different requests give different prompts. */
  lemma TemplateInjective(a: string, b: string)
    requires ApplyPromptTemplate(a) == ApplyPromptTemplate(b)
    ensures a == b
  {
    RequestRoundTrip(a);
    RequestRoundTrip(b);
  }
}
