/**
 * The generator component (src/App.js, App): its state fields, the three
 * input handlers and generateQRCode, the workflow that validates the text,
 * checks it against the history, calls the QR encoder and, on success,
 * records the new code.
 *
 * The encoder (the `qrcode` library's toDataURL) is a parameter: a function
 * from the request it is called with to its outcome. The clock is a
 * parameter too: `now` is the time of the attempt in milliseconds.
 */
module Generator {
  import opened Validation
  import opened History

  /** The error-correction levels offered by the level selector. */
  datatype ErrorCorrectionLevel = L | M | Q | H

  /** What toDataURL is called with: the text and the options `{width, errorCorrectionLevel}`. */
  datatype EncodeRequest = EncodeRequest(text: string, width: int, level: ErrorCorrectionLevel)

  /** What toDataURL reports to its callback: the image as a data URL, or an error. */
  datatype EncodeResult = DataUrl(data: string) | EncodeError

  const InvalidInputMessage: string := "Please enter a valid URL, email address, or phone number."
  const DuplicateMessage: string := "A QR code with the same content already exists in the history."
  const EncodeFailedMessage: string := "Error generating QR code. Please try again."

  const DefaultSize: int := 300
  const DefaultLevel: ErrorCorrectionLevel := H

  class QrCodeGenerator {
    var text: string
    var qrCodeData: string
    var errorMessage: string
    var qrCodeHistory: seq<HistoryEntry>
    var size: int
    var errorCorrectionLevel: ErrorCorrectionLevel

    /** The history only ever grows through the duplicate check. */
    ghost predicate Valid()
      reads this
    {
      SpacedFromFirst(qrCodeHistory)
    }

    /** The component's initial state. */
    constructor ()
      ensures Valid()
      ensures text == "" && qrCodeData == "" && errorMessage == "" && qrCodeHistory == []
      ensures size == DefaultSize && errorCorrectionLevel == DefaultLevel
    {
      text := "";
      qrCodeData := "";
      errorMessage := "";
      qrCodeHistory := [];
      size := DefaultSize;
      errorCorrectionLevel := DefaultLevel;
    }

    /** handleChange: the edited text replaces `text` and clears the error. */
    method HandleChange(value: string)
      requires Valid()
      modifies this
      ensures Valid()
      ensures text == value && errorMessage == ""
      ensures qrCodeData == old(qrCodeData) && qrCodeHistory == old(qrCodeHistory)
      ensures size == old(size) && errorCorrectionLevel == old(errorCorrectionLevel)
    {
      text := value;
      errorMessage := "";
    }

    /** handleSizeChange: stores the new width; nothing else changes. */
    method HandleSizeChange(value: int)
      requires Valid()
      modifies this
      ensures Valid()
      ensures size == value
      ensures text == old(text) && errorMessage == old(errorMessage)
      ensures qrCodeData == old(qrCodeData) && qrCodeHistory == old(qrCodeHistory)
      ensures errorCorrectionLevel == old(errorCorrectionLevel)
    {
      size := value;
    }

    /** handleECLChange: stores the new level; nothing else changes. */
    method HandleEclChange(level: ErrorCorrectionLevel)
      requires Valid()
      modifies this
      ensures Valid()
      ensures errorCorrectionLevel == level
      ensures text == old(text) && errorMessage == old(errorMessage)
      ensures qrCodeData == old(qrCodeData) && qrCodeHistory == old(qrCodeHistory)
      ensures size == old(size)
    {
      errorCorrectionLevel := level;
    }

    /**
     * generateQRCode. Returns the request the encoder was called with, or None
     * when the attempt stopped before the encoder.
     *  - text matched by no validator: validation message, encoder not called;
     *  - otherwise, a duplicate: duplicate message, encoder not called;
     *  - otherwise the encoder is called with the text, the size and the level;
     *    on an error: encoder message; on success: the data is displayed, the
     *    error is cleared and exactly one record `{text, now}` is appended.
     * Only a successful encode changes the history or the displayed code, and
     * the text and options never change.
     */
    method GenerateQrCode(now: int, encode: EncodeRequest -> EncodeResult) returns (request: Option<EncodeRequest>)
      requires Valid()
      modifies this
      ensures Valid()
      ensures text == old(text) && size == old(size) && errorCorrectionLevel == old(errorCorrectionLevel)
      ensures !IsAcceptable(text) ==>
        && request == None && errorMessage == InvalidInputMessage
        && qrCodeHistory == old(qrCodeHistory) && qrCodeData == old(qrCodeData)
      ensures IsAcceptable(text) && IsCodeDuplicate(old(qrCodeHistory), text, now) ==>
        && request == None && errorMessage == DuplicateMessage
        && qrCodeHistory == old(qrCodeHistory) && qrCodeData == old(qrCodeData)
      ensures IsAcceptable(text) && !IsCodeDuplicate(old(qrCodeHistory), text, now) ==>
        request == Some(EncodeRequest(text, size, errorCorrectionLevel))
      ensures request.Some? && encode(request.value).EncodeError? ==>
        && errorMessage == EncodeFailedMessage
        && qrCodeHistory == old(qrCodeHistory) && qrCodeData == old(qrCodeData)
      ensures request.Some? && encode(request.value).DataUrl? ==>
        && errorMessage == ""
        && qrCodeData == encode(request.value).data
        && qrCodeHistory == old(qrCodeHistory) + [HistoryEntry(text, now)]
    {
      errorMessage := "";

      if !IsURLValid(text) && !IsEmailValid(text) && !IsPhoneValid(text) {
        errorMessage := InvalidInputMessage;
        return None;
      }

      if IsCodeDuplicate(qrCodeHistory, text, now) {
        errorMessage := DuplicateMessage;
        return None;
      }

      request := Some(EncodeRequest(text, size, errorCorrectionLevel));
      var result := encode(request.value);
      match result
      case EncodeError =>
        errorMessage := EncodeFailedMessage;
      case DataUrl(data) =>
        qrCodeData := data;
        AppendNonDuplicateKeepsSpacing(qrCodeHistory, HistoryEntry(text, now));
        qrCodeHistory := qrCodeHistory + [HistoryEntry(text, now)];
    }
  }

  /**
   * A session as a user would drive it: default options reach the encoder
   * unchanged, a resubmission within 24 hours is refused without calling the
   * encoder, and one made 24 hours later is accepted and recorded.
   */
  method SessionScenario(start: int)
  {
    var g := new QrCodeGenerator();
    var encode := (r: EncodeRequest) => DataUrl("data:image/png;base64," + r.text);
    AcceptsSamples();

    g.HandleChange("foo@bar.com");
    var sent := g.GenerateQrCode(start, encode);
    assert sent == Some(EncodeRequest("foo@bar.com", 300, H));
    assert g.qrCodeHistory == [HistoryEntry("foo@bar.com", start)];

    WindowIsStrictMillisComparison(start + 1000, start);
    sent := g.GenerateQrCode(start + 1000, encode);
    assert sent == None && g.errorMessage == DuplicateMessage;
    assert |g.qrCodeHistory| == 1;

    g.HandleSizeChange(500);
    g.HandleEclChange(L);
    assert |g.qrCodeHistory| == 1 && g.errorMessage == DuplicateMessage;

    ExactlyOneDayIsNotDuplicate(g.qrCodeHistory, "foo@bar.com", start + WindowMillis);
    sent := g.GenerateQrCode(start + WindowMillis, encode);
    assert sent == Some(EncodeRequest("foo@bar.com", 500, L));
    assert g.qrCodeHistory == [HistoryEntry("foo@bar.com", start), HistoryEntry("foo@bar.com", start + WindowMillis)];
  }
}
