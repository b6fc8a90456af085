/** The chat assistant's background document (server/utils/pdfContext.js):
    a memo holding the text extracted from the project PDF, truncated to
    500000 characters, with a built-in fallback text when the PDF cannot be
    read. Reading and parsing the PDF is the `file` parameter. */
module PdfContext {
  import opened Common

  /** Largest number of characters of PDF text kept. */
  const MaxChars: nat := 500000

  const TruncationMarker := "\n\n[... Contenido truncado por límite de tamaño ...]"

  /** The text between the opening newline of `getDefaultContext`'s template
      literal and its closing indentation, one constant per line: the first
      line, the lines between, each with its newline on both sides, and the
      last line. */
  const TemplateBody: string := Line01 + TemplateMiddle + Line66

  const TemplateMiddle: string :=
    "\n" +
    Line02 + "\n" +
    Line03 + "\n" +
    Line04 + "\n" +
    Line05 + "\n" +
    Line06 + "\n" +
    Line07 + "\n" +
    Line08 + "\n" +
    Line09 + "\n" +
    Line10 + "\n" +
    Line11 + "\n" +
    Line12 + "\n" +
    Line13 + "\n" +
    Line14 + "\n" +
    Line15 + "\n" +
    Line16 + "\n" +
    Line17 + "\n" +
    Line18 + "\n" +
    Line19 + "\n" +
    Line20 + "\n" +
    Line21 + "\n" +
    Line22 + "\n" +
    Line23 + "\n" +
    Line24 + "\n" +
    Line25 + "\n" +
    Line26 + "\n" +
    Line27 + "\n" +
    Line28 + "\n" +
    Line29 + "\n" +
    Line30 + "\n" +
    Line31 + "\n" +
    Line32 + "\n" +
    Line33 + "\n" +
    Line34 + "\n" +
    Line35 + "\n" +
    Line36 + "\n" +
    Line37 + "\n" +
    Line38 + "\n" +
    Line39 + "\n" +
    Line40 + "\n" +
    Line41 + "\n" +
    Line42 + "\n" +
    Line43 + "\n" +
    Line44 + "\n" +
    Line45 + "\n" +
    Line46 + "\n" +
    Line47 + "\n" +
    Line48 + "\n" +
    Line49 + "\n" +
    Line50 + "\n" +
    Line51 + "\n" +
    Line52 + "\n" +
    Line53 + "\n" +
    Line54 + "\n" +
    Line55 + "\n" +
    Line56 + "\n" +
    Line57 + "\n" +
    Line58 + "\n" +
    Line59 + "\n" +
    Line60 + "\n" +
    Line61 + "\n" +
    Line62 + "\n" +
    Line63 + "\n" +
    Line64 + "\n" +
    Line65 +
    "\n"

  const Line01: string := "INFORMACIÓN DEL PROYECTO POZO DE MINERVA"
  const Line02: string := ""
  const Line03: string := "UBICACIÓN:"
  const Line04: string := "- Dirección: 18-75 Bulevar San Nicolás, Zona 4, Mixco"
  const Line05: string := "- Área de influencia: Colonias San Nicolás (CSN-1, CSN-2, CSN-3), Vistas del Naranjo, Montserrat, y áreas circundantes"
  const Line06: string := ""
  const Line07: string := "CARACTERÍSTICAS DEL PROYECTO:"
  const Line08: string := "- Tipo: Pozo mecánico profundo"
  const Line09: string := "- Profundidad: ~457 metros (1,500 pies)"
  const Line10: string := "- Diámetro de perforación: 17.5 pulgadas"
  const Line11: string := "- Entubado: 12 pulgadas (197 pies liso + 1,303 pies ranurado)"
  const Line12: string := "- Población objetivo: ~11,650 personas"
  const Line13: string := "- Infraestructura: Caseta de máquinas, cuarto de cloración, conexión a red municipal"
  const Line14: string := ""
  const Line15: string := "CLASIFICACIÓN AMBIENTAL:"
  const Line16: string := "- Categoría actual: B2 (bajo impacto) - MARN"
  const Line17: string := "- Fecha de aprobación: 03-Feb-2025"
  const Line18: string := "- Expediente: EAI-S-01579-2024"
  const Line19: string := ""
  const Line20: string := "CINCO RAZONES PARA PREOCUPACIÓN:"
  const Line21: string := ""
  const Line22: string := "1. CLASIFICACIÓN AMBIENTAL DISCUTIBLE (B2 vs B1)"
  const Line23: string := "   - Un pozo tan profundo puede tener impacto \"moderado\" (B1)"
  const Line24: string := "   - B1 requiere mayor participación ciudadana"
  const Line25: string := "   - El cono de abatimiento puede afectar pozos vecinos"
  const Line26: string := ""
  const Line27: string := "2. PERMISOS SECTORIALES FALTANTES"
  const Line28: string := "   - Se requiere aval sanitario del MSPAS"
  const Line29: string := "   - La resolución MARN NO autoriza aprovechamiento de aguas"
  const Line30: string := "   - Faltan validaciones técnicas previas a construcción"
  const Line31: string := ""
  const Line32: string := "3. CONDICIONES ESTRICTAS DEL MARN"
  const Line33: string := "   - Manejo de lodos según Acuerdo 236-2006"
  const Line34: string := "   - Bitácora de niveles freáticos obligatoria"
  const Line35: string := "   - Análisis fisicoquímicos semestrales"
  const Line36: string := "   - Prohibición de depositar materiales en cauces"
  const Line37: string := "   - Cualquier incumplimiento habilita suspensión"
  const Line38: string := ""
  const Line39: string := "4. CONTRATACIÓN PÚBLICA"
  const Line40: string := "   - Proceso sujeto a control de Contraloría y Guatecompras"
  const Line41: string := "   - Posibles impugnaciones por bases restrictivas"
  const Line42: string := "   - Se requiere actualización de estudios técnicos"
  const Line43: string := ""
  const Line44: string := "5. UBICACIÓN URBANA SENSIBLE"
  const Line45: string := "   - Corredor vial principal (Bulevar San Nicolás)"
  const Line46: string := "   - Cercanía a áreas residenciales densas"
  const Line47: string := "   - Riesgo de ruido, vibración, polvo"
  const Line48: string := "   - Afectación al tránsito vehicular"
  const Line49: string := "   - Posible daño a instalaciones existentes"
  const Line50: string := ""
  const Line51: string := "ACCIONES CIUDADANAS DISPONIBLES:"
  const Line52: string := "1. Solicitar revisión de categoría al MARN (B2 → B1)"
  const Line53: string := "2. Requerir aval sanitario del MSPAS"
  const Line54: string := "3. Vigilancia de obra y denuncias técnicas"
  const Line55: string := "4. Auditoría social de la licitación"
  const Line56: string := "5. Solicitar plan de manejo de tránsito/ruido a la Municipalidad"
  const Line57: string := ""
  const Line58: string := "DERECHOS CIUDADANOS:"
  const Line59: string := "- Acceso a información pública"
  const Line60: string := "- Participación en procesos ambientales"
  const Line61: string := "- Denuncia de incumplimientos"
  const Line62: string := "- Solicitud de medidas cautelares"
  const Line63: string := "- Impugnación de procesos de compra"
  const Line64: string := ""
  const Line65: string := "IMPORTANTE:"
  const Line66: string := "Este proyecto PUEDE ser beneficioso si se ejecuta correctamente, con todas las salvaguardas legales y técnicas. La preocupación vecinal es LEGÍTIMA y debe canalizarse por vías legales y administrativas apropiadas."

  /** The template literal itself, before `.trim()`. */
  const RawDefaultContext: string := "\n" + TemplateBody + "\n  "

  /** `getDefaultContext()` is `DefaultContext(RawDefaultContext)`: the
      template with surrounding whitespace removed. The template is passed in
      so that proofs about the loader do not expand the text. */
  function DefaultContext(template: string): (r: string)
    ensures IsTrimmed(r) && |r| <= |template|
    ensures IsTrimmed(template) ==> r == template
  {
    Trim(template)
  }

  /** Whatever the lines between the first and the last, `getDefaultContext()`
      removes exactly the newline before the text and the newline and
      indentation after it: the first line starts and the last line ends with
      a visible character. */
  lemma DefaultIsBodyFor(middle: string)
    ensures DefaultContext("\n" + (Line01 + middle + Line66) + "\n  ") == Line01 + middle + Line66
  {
    assert Line01[0] == 'I';
    assert Line66[|Line66| - 1] == '.';
    TrimmedBetween(Line01, middle, Line66);
    TrimAround("\n", Line01 + middle + Line66, "\n  ");
  }

  /** `getDefaultContext()` is the template's text. */
  lemma DefaultIsBody()
    ensures DefaultContext(RawDefaultContext) == TemplateBody
  {
    DefaultIsBodyFor(TemplateMiddle);
  }

  /** What reading the PDF gives: no file, a read or parse failure, or its text. */
  datatype PdfFile = Missing | Unreadable | Parsed(text: string)

  /** The kept text: the whole text, or its first 500000 characters followed by the marker. */
  function Truncate(fullText: string): (r: string)
    ensures |fullText| <= MaxChars ==> r == fullText
    ensures |fullText| > MaxChars ==> r == fullText[..MaxChars] + TruncationMarker
    ensures |r| <= MaxChars + |TruncationMarker|
  {
    if |fullText| > MaxChars then fullText[..MaxChars] + TruncationMarker else fullText
  }

  /** A kept text is the PDF text itself or a prefix of it, and the marker
      appears only when text was dropped. */
  lemma TruncateKeepsPrefix(fullText: string)
    ensures var r := Truncate(fullText);
      (r == fullText) || (|fullText| > MaxChars && r[..MaxChars] == fullText[..MaxChars] && r[MaxChars..] == TruncationMarker)
  {
  }

  /** One `loadPDFContext` call as a transition: from the memo and the file,
      the returned text and the new memo. A memo is used only when truthy. */
  function Load(cached: Option<string>, file: PdfFile, template: string): (r: (string, Option<string>))
    ensures Truthy(cached) ==> r == (cached.value, cached)
    ensures !Truthy(cached) && !file.Parsed? ==> r == (DefaultContext(template), cached)
    ensures !Truthy(cached) && file.Parsed? ==> r.1 == Some(r.0) && r.0 == Truncate(file.text)
  {
    if Truthy(cached) then (cached.value, cached)
    else match file
      case Parsed(text) => (Truncate(text), Some(Truncate(text)))
      case _ => (DefaultContext(template), cached)
  }

  /** Once a non-empty PDF text has been loaded, every later call returns
      the same text and keeps the memo, whatever the file now holds. */
  lemma LoadMemoised(cached: Option<string>, text: string, later: PdfFile, template: string)
    requires text != ""
    ensures var first := Load(cached, Parsed(text), template);
      Truthy(first.1) && Load(first.1, later, template) == first
  {
  }

  /** A failed read leaves the memo as it was, so the next call retries. */
  lemma FailureRetries(file: PdfFile, next: PdfFile, template: string)
    requires !file.Parsed?
    ensures Load(None, file, template) == (DefaultContext(template), None)
    ensures Load(Load(None, file, template).1, next, template) == Load(None, next, template)
  {
  }

  /** An empty PDF text is memoised but falsy, so it is reloaded. */
  lemma EmptyTextReloads(next: PdfFile, template: string)
    ensures Load(None, Parsed(""), template) == ("", Some(""))
    ensures Load(Some(""), next, template).0 == Load(None, next, template).0
  {
  }

  class Loader {
    /** `cachedContext`; `None` is `null`. */
    var cached: Option<string>
    /** The template literal of `getDefaultContext`. */
    const template: string

    /** The server's loader is `Loader(RawDefaultContext)`. */
    constructor (template: string)
      ensures cached.None? && this.template == template
    {
      cached := None;
      this.template := template;
    }

    /** `loadPDFContext()`. */
    method LoadPdfContext(file: PdfFile) returns (context: string)
      modifies this
      ensures (context, cached) == Load(old(cached), file, template)
    {
      if Truthy(cached) {
        return cached.value;
      }
      match file {
        case Missing =>
          context := DefaultContext(template);
        case Unreadable =>
          context := DefaultContext(template);
        case Parsed(fullText) =>
          var kept := if |fullText| > MaxChars then fullText[..MaxChars] + TruncationMarker else fullText;
          cached := Some(kept);
          context := kept;
      }
    }

    /** `clearCache()`: the next call reads the PDF again. */
    method ClearCache()
      modifies this
      ensures cached.None?
      ensures forall file :: Load(cached, file, template) == Load(None, file, template)
    {
      cached := None;
    }
  }
}
